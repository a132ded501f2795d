/** Player identifiers: 128-bit UUIDs, their canonical text form
    (8-4-4-4-12 lower-case hexadecimal digits, the form `UUID.toString`
    produces) and the parser that reads that form back. */
module Uuids {
  import opened JavaLang

  /** One hexadecimal digit. */
  type HexDigit = d: int | 0 <= d < 16

  /** A UUID as its 32 hexadecimal digits, most significant first. */
  type Uuid = s: seq<HexDigit> | |s| == 32 witness seq(32, _ => 0)

  /** The lower-case character of a digit. */
  function HexChar(d: HexDigit): (c: char)
    ensures HexValue(c) == Some(d)
    ensures c != ' ' && c != '-' && c != '\n'
  {
    if d < 10 then (48 + d) as char else (87 + d) as char
  }

  /** The digit a character denotes, in either case. */
  function HexValue(c: char): Option<HexDigit>
  {
    if '0' <= c <= '9' then Some(c as int - 48)
    else if 'a' <= c <= 'f' then Some(c as int - 87)
    else if 'A' <= c <= 'F' then Some(c as int - 55)
    else None
  }

  /** The characters of a run of digits. */
  function Hex(ds: seq<HexDigit>): (s: string)
    ensures |s| == |ds|
  {
    seq(|ds|, i requires 0 <= i < |ds| => HexChar(ds[i]))
  }

  /** Reads a run of hexadecimal characters; fails on any other character. */
  function ParseHex(s: string): (r: Option<seq<HexDigit>>)
    ensures r.Some? <==> forall i :: 0 <= i < |s| ==> HexValue(s[i]).Some?
    ensures r.Some? ==> |r.value| == |s|
    ensures r.Some? ==> forall i :: 0 <= i < |s| ==> HexValue(s[i]) == Some(r.value[i])
    decreases |s|
  {
    if s == [] then Some([])
    else
      match (HexValue(s[0]), ParseHex(s[1..]))
      case (Some(d), Some(ds)) => Some([d] + ds)
      case _ => None
  }

  lemma ParseHexOfHex(ds: seq<HexDigit>)
    ensures ParseHex(Hex(ds)) == Some(ds)
  {
    var r := ParseHex(Hex(ds));
    assert r.Some?;
    assert r.value == ds;
  }

  /** The canonical text form: groups of 8, 4, 4, 4 and 12 digits joined by '-'. */
  function ToStr(u: Uuid): (s: string)
    ensures |s| == 36
    ensures forall i :: 0 <= i < |s| ==> s[i] != ' ' && s[i] != '\n'
  {
    Hex(u[..8]) + "-" + Hex(u[8..12]) + "-" + Hex(u[12..16]) + "-" + Hex(u[16..20]) + "-" + Hex(u[20..])
  }

  /** Parses the canonical text form (either case); anything else is rejected,
      which the callers turn into the IllegalArgumentException of `UUID.fromString`. */
  function FromStr(s: string): (r: Option<Uuid>)
    ensures r.Some? ==> |s| == 36 && s[8] == '-' && s[13] == '-' && s[18] == '-' && s[23] == '-'
  {
    if |s| == 36 && s[8] == '-' && s[13] == '-' && s[18] == '-' && s[23] == '-' then
      match ParseHex(s[..8] + s[9..13] + s[14..18] + s[19..23] + s[24..])
      case Some(ds) => Some(ds)
      case None => None
    else None
  }

  /** Reading back the text form of a UUID yields that UUID. */
  lemma FromStrToStr(u: Uuid)
    ensures FromStr(ToStr(u)) == Some(u)
  {
    var s := ToStr(u);
    assert s[..8] == Hex(u[..8]);
    assert s[9..13] == Hex(u[8..12]);
    assert s[14..18] == Hex(u[12..16]);
    assert s[19..23] == Hex(u[16..20]);
    assert s[24..] == Hex(u[20..]);
    assert s[..8] + s[9..13] + s[14..18] + s[19..23] + s[24..] == Hex(u);
    ParseHexOfHex(u);
  }

  /** Distinct UUIDs have distinct text forms. */
  lemma ToStrInjective(a: Uuid, b: Uuid)
    ensures ToStr(a) == ToStr(b) ==> a == b
  {
    FromStrToStr(a);
    FromStrToStr(b);
  }
}
