/** The three pieces of the Java library the persistence code leans on, as they
    behave on the strings it handles:
    - `String.split(regex)` for a regex that is a plain literal (no
      metacharacters), with the default limit 0;
    - `Collectors.joining(sep)` over a sequence of strings;
    - `Files.lines`, which reads a file's content back as its lines. */
module JavaStrings {
  import opened JavaLang

  /** `d` occurs in `s` starting at index `k`. */
  predicate OccursAt(s: string, d: string, k: nat)
  {
    k + |d| <= |s| && s[k..k + |d|] == d
  }

  /** `s` has no occurrence of the character `ch`. */
  predicate Lacks(s: string, ch: char)
  {
    forall i :: 0 <= i < |s| ==> s[i] != ch
  }

  lemma OccursAtShift(s: string, d: string)
    requires |s| > 0
    ensures forall k: nat :: 1 <= k ==> (OccursAt(s, d, k) <==> OccursAt(s[1..], d, k - 1))
  {
    forall k: nat | 1 <= k
      ensures OccursAt(s, d, k) <==> OccursAt(s[1..], d, k - 1)
    {
      if k + |d| <= |s| {
        assert s[1..][k - 1..k - 1 + |d|] == s[k..k + |d|];
      }
    }
  }

  /** The first occurrence of `d` in `s`: the match a left-to-right search
      for a literal pattern finds first. */
  function IndexOf(s: string, d: string): (r: Option<nat>)
    ensures r.Some? ==> OccursAt(s, d, r.value)
    ensures r.Some? ==> forall k: nat :: k < r.value ==> !OccursAt(s, d, k)
    ensures r.None? ==> forall k: nat :: !OccursAt(s, d, k)
    decreases |s|
  {
    if |s| < |d| then None
    else if s[..|d|] == d then Some(0)
    else
      OccursAtShift(s, d);
      match IndexOf(s[1..], d)
      case None => None
      case Some(j) => Some(j + 1)
  }

  /** The fields `s` falls into at every occurrence of `d`, scanning left to
      right and resuming after each match, before any field is dropped. */
  function Pieces(s: string, d: string): (r: seq<string>)
    requires |d| > 0
    ensures |r| >= 1
    decreases |s|
  {
    match IndexOf(s, d)
    case None => [s]
    case Some(j) => [s[..j]] + Pieces(s[j + |d|..], d)
  }

  /** Drops the empty strings at the end of a list of fields. */
  function DropTrailingEmpty(xs: seq<string>): (r: seq<string>)
    ensures r <= xs
    ensures r == [] || r[|r| - 1] != ""
    ensures forall i :: |r| <= i < |xs| ==> xs[i] == ""
    decreases |xs|
  {
    if xs != [] && xs[|xs| - 1] == "" then DropTrailingEmpty(xs[..|xs| - 1]) else xs
  }

  /** `s.split(d)` for a literal `d`: when `d` does not occur the result is
      `[s]` itself (so the empty string splits into one empty field);
      otherwise the fields, with trailing empty fields removed. */
  function Split(s: string, d: string): (r: seq<string>)
    requires |d| > 0
    ensures IndexOf(s, d).None? ==> r == [s]
    ensures IndexOf(s, d).Some? ==> r <= Pieces(s, d)
    ensures IndexOf(s, d).Some? ==> r == [] || r[|r| - 1] != ""
    ensures IndexOf(s, d).Some? ==> forall i :: |r| <= i < |Pieces(s, d)| ==> Pieces(s, d)[i] == ""
  {
    if IndexOf(s, d).None? then [s] else DropTrailingEmpty(Pieces(s, d))
  }

  /** `Collectors.joining(sep)`: the strings with `sep` between consecutive ones. */
  function Join(xs: seq<string>, sep: string): (r: string)
    ensures xs != [] ==> xs[0] <= r
    ensures |xs| > 1 ==> xs[0] + sep <= r
    decreases |xs|
  {
    if |xs| == 0 then ""
    else if |xs| == 1 then xs[0]
    else xs[0] + sep + Join(xs[1..], sep)
  }

  /** Joining the fields of `s` with the delimiter they were cut at gives back `s`. */
  lemma {:induction false} JoinPieces(s: string, d: string)
    requires |d| > 0
    ensures Join(Pieces(s, d), d) == s
    decreases |s|
  {
    match IndexOf(s, d)
    case None =>
    case Some(j) =>
      var rest := s[j + |d|..];
      var tail := Pieces(rest, d);
      JoinPieces(rest, d);
      assert Pieces(s, d) == [s[..j]] + tail;
      assert ([s[..j]] + tail)[1..] == tail;
      assert Join(Pieces(s, d), d) == s[..j] + d + Join(tail, d);
      assert s[j..j + |d|] == d;
      assert s == s[..j] + s[j..j + |d|] + rest;
  }

  /** `Files.lines`: the content cut at each '\n'; a final '\n' does not start
      another line, and empty content has no lines. */
  function ReadLines(s: string): (r: seq<string>)
    ensures forall i :: 0 <= i < |r| ==> Lacks(r[i], '\n')
    ensures r == [] <==> s == []
    decreases |s|
  {
    if s == [] then []
    else
      match IndexOf(s, "\n")
      case None =>
        assert Lacks(s, '\n') by {
          forall i | 0 <= i < |s|
            ensures s[i] != '\n'
          {
            assert !OccursAt(s, "\n", i);
            assert s[i..i + 1] == [s[i]];
          }
        }
        [s]
      case Some(j) =>
        assert Lacks(s[..j], '\n') by {
          forall i | 0 <= i < j
            ensures s[..j][i] != '\n'
          {
            assert !OccursAt(s, "\n", i);
            assert s[i..i + 1] == [s[i]];
          }
        }
        [s[..j]] + ReadLines(s[j + 1..])
  }

  /** The first occurrence of `d` in `a + d + b` is right after `a` when the
      first character of `d` does not appear in `a`. */
  lemma IndexOfAfter(a: string, d: string, b: string)
    requires |d| > 0 && Lacks(a, d[0])
    ensures IndexOf(a + d + b, d) == Some(|a|)
  {
    var s := a + d + b;
    assert s[|a|..|a| + |d|] == d;
    assert OccursAt(s, d, |a|);
    forall k: nat | k < |a|
      ensures !OccursAt(s, d, k)
    {
      assert s[k] == a[k];
      if k + |d| <= |s| {
        assert s[k..k + |d|][0] == s[k];
      }
    }
  }

  /** `d` does not occur in a string lacking its first character. */
  lemma IndexOfAbsent(b: string, d: string)
    requires |d| > 0 && Lacks(b, d[0])
    ensures IndexOf(b, d) == None
  {
    forall k: nat
      ensures !OccursAt(b, d, k)
    {
      if k + |d| <= |b| {
        assert b[k..k + |d|][0] == b[k];
      }
    }
  }

  /** A field free of the delimiter's first character ends at the first delimiter. */
  lemma PiecesAfter(a: string, d: string, b: string)
    requires |d| > 0 && Lacks(a, d[0])
    ensures Pieces(a + d + b, d) == [a] + Pieces(b, d)
  {
    var s := a + d + b;
    IndexOfAfter(a, d, b);
    assert s[..|a|] == a;
    assert s[|a| + |d|..] == b;
  }

  /** A field free of the delimiter's first character is a single piece. */
  lemma PiecesLast(b: string, d: string)
    requires |d| > 0 && Lacks(b, d[0])
    ensures Pieces(b, d) == [b]
  {
    IndexOfAbsent(b, d);
  }

  /** A line of two delimiter-free fields splits into exactly those two fields. */
  lemma SplitTwo(a: string, d: string, b: string)
    requires |d| > 0 && |b| > 0 && Lacks(a, d[0]) && Lacks(b, d[0])
    ensures Split(a + d + b, d) == [a, b]
  {
    IndexOfAfter(a, d, b);
    PiecesAfter(a, d, b);
    PiecesLast(b, d);
  }

  lemma PiecesTrailingDelimiter(a: string, d: string, b: string)
    requires |d| > 0 && Lacks(a, d[0]) && Lacks(b, d[0])
    ensures Pieces(a + d + (b + d), d) == [a, b, ""]
  {
    assert Pieces(b + d, d) == [b, ""] by {
      PiecesEndingInDelimiter(b, d);
    }
    PiecesAfter(a, d, b + d);
  }

  /** A field followed by the delimiter gives that field and an empty one. */
  lemma PiecesEndingInDelimiter(b: string, d: string)
    requires |d| > 0 && Lacks(b, d[0])
    ensures Pieces(b + d, d) == [b, ""]
  {
    var s := b + d;
    assert IndexOf(s, d) == Some(|b|) by {
      assert s == b + d + "";
      IndexOfAfter(b, d, "");
    }
    assert s[..|b|] == b;
    assert s[|b| + |d|..] == "";
    assert Pieces("", d) == [""];
  }

  /** When `d` occurs, splitting keeps the fields up to the last non-empty one. */
  lemma SplitOfPieces(s: string, d: string, fields: seq<string>)
    requires |d| > 0 && IndexOf(s, d).Some? && Pieces(s, d) == fields
    requires fields != [] && fields[|fields| - 1] != ""
    ensures Split(s, d) == fields
  {
  }

  /** A trailing delimiter produces an empty last field, which split drops. */
  lemma SplitTrailingDelimiter(a: string, d: string, b: string)
    requires |d| > 0 && |b| > 0 && Lacks(a, d[0]) && Lacks(b, d[0])
    ensures Split(a + d + b + d, d) == [a, b]
  {
    var s := a + d + (b + d);
    assert a + d + b + d == s;
    assert IndexOf(s, d).Some? by {
      IndexOfAfter(a, d, b + d);
    }
    assert Pieces(s, d) == [a, b, ""] by {
      PiecesTrailingDelimiter(a, d, b);
    }
    assert DropTrailingEmpty([a, b, ""]) == [a, b] by {
      assert [a, b, ""][..2] == [a, b];
    }
  }

  lemma ThreePieces(a: string, d: string, b: string, c: string)
    requires |d| > 0 && Lacks(a, d[0]) && Lacks(b, d[0]) && Lacks(c, d[0])
    ensures Pieces(a + d + (b + d + c), d) == [a, b, c]
  {
    assert Pieces(b + d + c, d) == [b, c] by {
      PiecesAfter(b, d, c);
      PiecesLast(c, d);
    }
    assert Pieces(a + d + (b + d + c), d) == [a] + Pieces(b + d + c, d) by {
      PiecesAfter(a, d, b + d + c);
    }
    assert [a] + [b, c] == [a, b, c];
  }

  /** Three delimiter-free fields stay three fields. */
  lemma SplitThree(a: string, d: string, b: string, c: string)
    requires |d| > 0 && |c| > 0 && Lacks(a, d[0]) && Lacks(b, d[0]) && Lacks(c, d[0])
    ensures Split(a + d + b + d + c, d) == [a, b, c]
  {
    var s := a + d + (b + d + c);
    assert a + d + b + d + c == s;
    assert IndexOf(s, d).Some? by {
      IndexOfAfter(a, d, b + d + c);
    }
    assert Pieces(s, d) == [a, b, c] by {
      ThreePieces(a, d, b, c);
    }
    SplitOfPieces(s, d, [a, b, c]);
  }

  /** The empty line splits into one (empty) field, and a line that is only
      the delimiter splits into none. */
  lemma SplitDegenerate(d: string)
    requires |d| > 0
    ensures Split("", d) == [""]
    ensures Split(d, d) == []
  {
    IndexOfAbsent("", d);
    assert "" + d + "" == d;
    IndexOfAfter("", d, "");
    PiecesAfter("", d, "");
    PiecesLast("", d);
    assert Pieces(d, d) == ["", ""];
  }

  /** Reading back lines joined with '\n' gives the lines again, provided no
      line holds a '\n' and the last line is not empty. */
  lemma {:induction false} ReadJoinedLines(ls: seq<string>)
    requires forall i :: 0 <= i < |ls| ==> Lacks(ls[i], '\n')
    requires ls == [] || ls[|ls| - 1] != ""
    ensures ReadLines(Join(ls, "\n")) == ls
    decreases |ls|
  {
    if |ls| == 0 {
    } else if |ls| == 1 {
      IndexOfAbsent(ls[0], "\n");
    } else {
      var s := Join(ls, "\n");
      var rest := Join(ls[1..], "\n");
      assert s == ls[0] + "\n" + rest;
      IndexOfAfter(ls[0], "\n", rest);
      assert s[..|ls[0]|] == ls[0];
      assert s[|ls[0]| + 1..] == rest;
      ReadJoinedLines(ls[1..]);
    }
  }
}
