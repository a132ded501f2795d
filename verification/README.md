# Philios friendships, modelled in Dafny

Philios is a Spigot plugin that lets players befriend each other. This
project models its core:

- **The friendship store.** This is a Guava table of (row, column) cells. A friendship between `a` and `b` is the two cells `(a, b)` and `(b, a)`.
  - `Friendships` is the checked service: it rejects null identifiers and asking about oneself.
  - `Philios` keeps its own unchecked copy.
- **The `friendships.txt` file.** It has one `column <-> row` line per cell, joined by `'\n'`, and is loaded back line by line.
- **The friend commands.** `/friend remove <uuid>` ends a friendship. `/friend list` splits a player's friends into offline and online and renders each list as one chat line.
- **The friend-offer gate.** An offer between players who are already friends is dropped with a notice to its sender. Accepting an offer creates the friendship.
- **The chat-component joiners.** These are the `ChatComponents.joining` reducers and `ChatComponentJoiner`, a `StringJoiner` for chat components with its collectors.

Modules, one per file:

| module | file | contents |
|---|---|---|
| `JavaLang` | `java_lang.dfy` | nullable references, exceptions, `Result` |
| `Uuids` | `uuids.dfy` | a UUID as 32 hex digits; `toString` and `fromString` |
| `JavaStrings` | `java_strings.dfy` | `String.split` with a literal delimiter, `Collectors.joining`, `Files.lines` |
| `FriendTable` | `friend_table.dfy` | the table as a set of cells; symmetry; transpose |
| `Friendships` | `friendships.dfy` | the checked service operations |
| `SavedData` | `saved_data.dfy` | the line format, loading, saving and the enable/shutdown lifecycle |
| `ChatComponents` | `chat_components.dfy` | components and the `joining` reducers |
| `ChatComponentJoiner` | `chat_component_joiner.dfy` | the joiner and its collectors |
| `Philios` | `philios.dfy` | the plugin's store, the remove command and the friend lists |
| `FriendOffers` | `friend_offers.dfy` | `FriendOffer` and `FriendOffersManager` |

Several things the plugin takes from its environment are parameters of the model:

- the file's content (`None` when the file does not exist);
- the set of online players;
- the iteration order of a set;
- the rendering of a friend in chat.

A component is its text plus its list of child components. A `ComponentBuilder` is the list of its parts.

`Friendships.java` and `Philios.java` load and save the file with identical code. The one model in `SavedData` covers both:

- `Philios.java:84-99` is the same as `Friendships.java:66-81`;
- `Philios.java:101-116` is the same as `Friendships.java:86-101`;
- `Philios.java:66-82` is the same as `Friendships.java:42-61`.

## Model

All paths are under `src/main/java/net/wytrem/spigot/philios/`; the source cells carry the full path.

| member | source | states |
|---|---|---|
| `Friendships.AddFriendship` | src/main/java/net/wytrem/spigot/philios/Friendships.java:131-136 | A null argument throws NullPointerException, and only then. Otherwise both cells of the pair are present afterwards, nothing is removed, and at most those two cells are added. |
| `Friendships.RemoveFriendship` | src/main/java/net/wytrem/spigot/philios/Friendships.java:141-146 | A null argument throws NullPointerException, and only then. Otherwise neither cell of the pair remains, nothing is added, and at most those two cells are removed. |
| `Friendships.AreFriends` | src/main/java/net/wytrem/spigot/philios/Friendships.java:158-164 | Answers exactly when both arguments are non-null and distinct, and then answers whether the cell (some, other) is present. A null argument throws NullPointerException and nothing else does. Equal arguments throw IllegalArgumentException and nothing else does. |
| `Friendships.GetFriends` | src/main/java/net/wytrem/spigot/philios/Friendships.java:124-126 | `x` is a friend of `p` exactly when the cell (x, p) is present. |
| `Friendships.AddThenAreFriends` | src/main/java/net/wytrem/spigot/philios/Friendships.java:128-136 | After adding a pair of distinct players, `areFriends` is true in both directions, whatever the argument order. |
| `Friendships.AddKeepsSymmetric` | src/main/java/net/wytrem/spigot/philios/Friendships.java:131-136 | Adding keeps the relation symmetric. |
| `Friendships.AddIdempotent` | src/main/java/net/wytrem/spigot/philios/Friendships.java:131-136 | Adding the same pair again, in either order, changes nothing. |
| `Friendships.AddSelf` | src/main/java/net/wytrem/spigot/philios/Friendships.java:131-136 | `addFriendship(a, a)` is not rejected: it stores the single cell (a, a), after which `areFriends(a, a)` still throws. |
| `Friendships.RemoveExactly` | src/main/java/net/wytrem/spigot/philios/Friendships.java:138-146 | Removal deletes exactly the two cells of the pair. It is a no-op when the pair is not friends, and it keeps the relation symmetric. |
| `Friendships.RemoveUndoesAdd` | src/main/java/net/wytrem/spigot/philios/Friendships.java:131-146 | Removing a friendship just added between non-friends restores the table. |
| `Friendships.AreFriendsSymmetric` | src/main/java/net/wytrem/spigot/philios/Friendships.java:158-164 | On a symmetric table, `areFriends(a, b)` and `areFriends(b, a)` have the same outcome, exceptions included. |
| `Friendships.GetFriendsMatchesAreFriends` | src/main/java/net/wytrem/spigot/philios/Friendships.java:124-164 | On a symmetric table, the friends of `p` are exactly the other players `x` with `areFriends(p, x)`. |
| `Friendships.FriendAndUnfriend` | src/main/java/net/wytrem/spigot/philios/Friendships.java:124-146 | Starting from an empty table, each of two players added as friends lists exactly the other; after removal both lists are empty. |
| `FriendTable.Transpose` | src/main/java/net/wytrem/spigot/philios/Friendships.java:94-95 | The table with rows and columns exchanged: (a, b) is in it exactly when (b, a) is in the original. Saving writes columns first, so a load restores this table. |
| `FriendTable.Column` | src/main/java/net/wytrem/spigot/philios/Friendships.java:125 | The key set of `column(col)`: exactly the rows holding a cell in that column. |
| `FriendTable.Link` | src/main/java/net/wytrem/spigot/philios/Friendships.java:134-135 | The two puts: both cells are present afterwards, and at most those two are new. |
| `FriendTable.Unlink` | src/main/java/net/wytrem/spigot/philios/Friendships.java:144-145 | The two removes: neither cell remains, and at most those two are gone. |
| `FriendTable.SymmetricIffTransposeFixed` | src/main/java/net/wytrem/spigot/philios/Friendships.java:94-95 | A table is symmetric exactly when transposing it changes nothing. |
| `FriendTable.LinkKeepsSymmetric` | src/main/java/net/wytrem/spigot/philios/Friendships.java:134-135 | The two puts keep a symmetric table symmetric. |
| `FriendTable.LinkIdempotent` | src/main/java/net/wytrem/spigot/philios/Friendships.java:134-135 | Putting the pair again, in either order, changes nothing. |
| `FriendTable.LinkOrderFree` | src/main/java/net/wytrem/spigot/philios/Friendships.java:129-135 | The order of the two players does not matter. |
| `FriendTable.UnlinkKeepsSymmetric` | src/main/java/net/wytrem/spigot/philios/Friendships.java:144-145 | The two removes keep a symmetric table symmetric. |
| `FriendTable.UnlinkAbsent` | src/main/java/net/wytrem/spigot/philios/Friendships.java:139-145 | Removing an absent pair changes nothing, and removal is idempotent. |
| `FriendTable.LinkUnlinkInverse` | src/main/java/net/wytrem/spigot/philios/Friendships.java:134-145 | Put then remove restores a table that lacked the pair. Remove then put restores a table that had it. |
| `FriendTable.SelfLink` | src/main/java/net/wytrem/spigot/philios/Friendships.java:134-135 | Linking a player with itself leaves one cell (a, a), so irreflexivity is lost. |
| `FriendTable.ColumnIsRowWhenSymmetric` | src/main/java/net/wytrem/spigot/philios/Friendships.java:124-126 | On a symmetric table, a player's column equals its row. |
| `Uuids.ToStr` | src/main/java/net/wytrem/spigot/philios/Friendships.java:95 | `UUID.toString`: 36 characters, with no space and no line break. |
| `Uuids.FromStr` | src/main/java/net/wytrem/spigot/philios/Friendships.java:74 | `UUID.fromString`: whatever it accepts is 36 characters long, with dashes at 8, 13, 18 and 23. |
| `Uuids.FromStrToStr` | src/main/java/net/wytrem/spigot/philios/Friendships.java:74 | Parsing the text form of a UUID gives back that UUID. |
| `Uuids.ToStrInjective` | src/main/java/net/wytrem/spigot/philios/Friendships.java:95 | Distinct UUIDs have distinct text forms. |
| `Uuids.ParseHex` | src/main/java/net/wytrem/spigot/philios/Friendships.java:74 | Reading hex digits succeeds exactly when every character is a hex digit, and then gives one digit per character with that character's value. |
| `JavaStrings.IndexOf` | src/main/java/net/wytrem/spigot/philios/Friendships.java:72 | `split` cuts at the first occurrence of the delimiter: the result is an occurrence with no earlier one, and `None` means there is no occurrence at all. |
| `JavaStrings.DropTrailingEmpty` | src/main/java/net/wytrem/spigot/philios/Friendships.java:72 | `split` drops trailing empty fields: the result is a prefix whose last field is non-empty, and every field dropped is empty. |
| `JavaStrings.Split` | src/main/java/net/wytrem/spigot/philios/Friendships.java:72 | `line.split(" <-> ")`: when the delimiter does not occur, the line comes back whole as the only field. Otherwise the fields are the pieces cut at each occurrence, left to right, with the trailing empty ones dropped: a prefix of the pieces that is empty or ends in a non-empty field, with only empty pieces after it. |
| `JavaStrings.JoinPieces` | src/main/java/net/wytrem/spigot/philios/Friendships.java:72 | Joining the fields back with the delimiter restores the line. |
| `JavaStrings.SplitTwo` | src/main/java/net/wytrem/spigot/philios/Friendships.java:72-73 | A line made of two delimiter-free fields splits into exactly those two. |
| `JavaStrings.SplitTrailingDelimiter` | src/main/java/net/wytrem/spigot/philios/Friendships.java:72-73 | `a <-> b <-> ` still splits into two fields, because the empty last one is dropped. |
| `JavaStrings.SplitThree` | src/main/java/net/wytrem/spigot/philios/Friendships.java:72-76 | Three delimiter-free fields stay three fields. |
| `JavaStrings.SplitDegenerate` | src/main/java/net/wytrem/spigot/philios/Friendships.java:72-76 | An empty line splits into one field, and a line that is just the delimiter splits into none. |
| `JavaStrings.Join` | src/main/java/net/wytrem/spigot/philios/Friendships.java:96 | `Collectors.joining("\n")`: the result starts with the first string, followed by the separator when there are more; `ReadJoinedLines` and `JoinPieces` undo it. |
| `JavaStrings.ReadLines` | src/main/java/net/wytrem/spigot/philios/Friendships.java:70 | `Files.lines`: no line holds '\n', and there are no lines exactly when the content is empty. |
| `JavaStrings.ReadJoinedLines` | src/main/java/net/wytrem/spigot/philios/Friendships.java:70-96 | `Files.lines` reads back exactly the lines that `joining("\n")` wrote, provided no line holds '\n' and the last line is non-empty. |
| `SavedData.FormatLine` | src/main/java/net/wytrem/spigot/philios/Friendships.java:95 | A saved line has 77 characters, with no line break. |
| `SavedData.ParseLine` | src/main/java/net/wytrem/spigot/philios/Friendships.java:72-76 | A line loads as the cell (first field, second field). A field count other than 2 throws IllegalStateException. A malformed identifier throws IllegalArgumentException. |
| `SavedData.NoDelimiterInUuid` | src/main/java/net/wytrem/spigot/philios/Friendships.java:95 | No UUID text contains the delimiter's first character. |
| `SavedData.ParseFormatLine` | src/main/java/net/wytrem/spigot/philios/Friendships.java:72-95 | A saved cell (row, col) loads back as (col, row). |
| `SavedData.ParseEdgeCases` | src/main/java/net/wytrem/spigot/philios/Friendships.java:72-76 | A trailing delimiter still loads. The empty line, the bare delimiter and a three-field line throw IllegalStateException. |
| `SavedData.LoadParsed` | src/main/java/net/wytrem/spigot/philios/Friendships.java:70-78 | Putting parsed cells in order only ever adds cells. When it stops, the exception is that of some parse. |
| `SavedData.Load` | src/main/java/net/wytrem/spigot/philios/Friendships.java:70-78 | Loading only ever adds cells. When it fails, the exception is that of some line. |
| `SavedData.CellsOfCons` | src/main/java/net/wytrem/spigot/philios/Friendships.java:70-78 | The cells of a list of parses are the first parse's cell plus the cells of the rest. |
| `SavedData.LoadParsedAllOk` | src/main/java/net/wytrem/spigot/philios/Friendships.java:70-78 | When every parse succeeded, loading adds exactly their cells and does not fail. |
| `SavedData.LoadParsedStops` | src/main/java/net/wytrem/spigot/philios/Friendships.java:70-78 | The first failed parse stops the load with its exception, after the cells of the parses before it. |
| `SavedData.LoadWellFormed` | src/main/java/net/wytrem/spigot/philios/Friendships.java:70-78 | When every line is well formed, loading adds exactly their cells and does not fail. |
| `SavedData.LoadStopsAtMalformed` | src/main/java/net/wytrem/spigot/philios/Friendships.java:70-78 | The first malformed line stops the load with its exception. The cells of the lines before it stay loaded. |
| `SavedData.LoadSavedData` | src/main/java/net/wytrem/spigot/philios/Friendships.java:66-81 | A missing file leaves the table empty; otherwise its lines are loaded. |
| `SavedData.Enable` | src/main/java/net/wytrem/spigot/philios/Friendships.java:36-48 | Enabling succeeds exactly when the load does, with the loaded table. Otherwise it fails with the load's exception, because only IOException is caught. A missing file gives an empty table. |
| `SavedData.SaveLines` | src/main/java/net/wytrem/spigot/philios/Friendships.java:94-96 | One line per cell, in iteration order. |
| `SavedData.SaveData` | src/main/java/net/wytrem/spigot/philios/Friendships.java:86-101 | Every cell is written exactly once, in an iteration order nothing fixes, and the lines are joined with '\n'. |
| `SavedData.SavedLinesParse` | src/main/java/net/wytrem/spigot/philios/Friendships.java:72-96 | Every saved line parses, as the transposed cell. |
| `SavedData.SavedLinesReadBack` | src/main/java/net/wytrem/spigot/philios/Friendships.java:70-96 | Reading the saved content gives back the saved lines. |
| `SavedData.SavedCellsTransposed` | src/main/java/net/wytrem/spigot/philios/Friendships.java:70-96 | The cells the saved lines describe are the transpose of the saved table. |
| `SavedData.SaveThenLoad` | src/main/java/net/wytrem/spigot/philios/Friendships.java:66-101 | In whatever order the cells were written, loading the saved file gives the transpose of the saved table, without failure. |
| `SavedData.SaveThenLoadSymmetric` | src/main/java/net/wytrem/spigot/philios/Friendships.java:66-101 | A table survives a save and a load unchanged exactly when it is symmetric. |
| `SavedData.Shutdown` | src/main/java/net/wytrem/spigot/philios/Friendships.java:50-61 | After shutdown the table is empty, and the next enable restores the transpose of the table that was saved. |
| `Philios.AddFriendship` | src/main/java/net/wytrem/spigot/philios/Philios.java:215-218 | The plugin's unchecked add agrees with the checked service on non-null arguments. Both cells are present afterwards. |
| `Philios.RemoveFriendship` | src/main/java/net/wytrem/spigot/philios/Philios.java:220-223 | The plugin's unchecked remove agrees with the checked service on non-null arguments. Neither cell remains afterwards. |
| `Philios.AreFriends` | src/main/java/net/wytrem/spigot/philios/Philios.java:229-235 | The plugin's check gives the same result, or throws the same exception, as the service's check. |
| `Philios.GetFriends` | src/main/java/net/wytrem/spigot/philios/Philios.java:211-213 | The plugin lists the same friends as the service does. |
| `Philios.RemoveCommand` | src/main/java/net/wytrem/spigot/philios/Philios.java:176-189 | Naming oneself throws IllegalArgumentException, and nothing else does. When the sender has the target as friend, both cells of the pair are gone and nothing else; the sender is told the friendship ended, and the target is told too exactly when online, with no other message. When they were not friends the table is unchanged and the sender alone is told they are not friends. |
| `Philios.RemoveCommandEndsFriendship` | src/main/java/net/wytrem/spigot/philios/Philios.java:180-188 | On a symmetric table, the command ends the friendship in both directions and keeps the table symmetric. Repeating it only tells the sender they are not friends. |
| `Philios.RemoveCommandUndoesAdd` | src/main/java/net/wytrem/spigot/philios/Philios.java:180-182 | The command removes exactly what `addFriendship` created. |
| `Philios.WithStatus` | src/main/java/net/wytrem/spigot/philios/Philios.java:146-147 | The filter keeps exactly the friends with the wanted online status, in the order they come. |
| `Philios.InOrderIndices` | src/main/java/net/wytrem/spigot/philios/Philios.java:133-136 | Of two entries of a filtered list, the earlier one comes earlier in the list filtered. |
| `Philios.WithStatusCounts` | src/main/java/net/wytrem/spigot/philios/Philios.java:124-147 | Every friend lands in exactly one of the offline and online lists. |
| `Philios.WithStatusDistinct` | src/main/java/net/wytrem/spigot/philios/Philios.java:146-147 | Filtering introduces no duplicates. |
| `Philios.DistinctCard` | src/main/java/net/wytrem/spigot/philios/Philios.java:212 | A listing of the key set without duplicates has as many entries as the set has members. |
| `Philios.ListFriends` | src/main/java/net/wytrem/spigot/philios/Philios.java:118-154 | The online list holds exactly the friends who are online, and the offline list exactly those who are not, each in the key set's iteration order. Neither has duplicates, and together they have as many entries as the player has friends. |
| `Philios.Rendered` | src/main/java/net/wytrem/spigot/philios/Philios.java:148 | Each friend is rendered, in order. |
| `Philios.FriendsMessage` | src/main/java/net/wytrem/spigot/philios/Philios.java:143-153 | The line has 2n+1 children: ", " before each rendered friend, then ".". |
| `Philios.FriendsMessageShape` | src/main/java/net/wytrem/spigot/philios/Philios.java:143-153 | An empty list still sends a line holding only ".". A non-empty list starts with ", ", followed by the friends joined by ", ". |
| `FriendOffers.CreateDefaultOffer` | src/main/java/net/wytrem/spigot/philios/FriendOffersManager.java:12-15 | The default offer goes from the proposing player to the player proposed to, in that order. |
| `FriendOffers.Post` | src/main/java/net/wytrem/spigot/philios/FriendOffersManager.java:17-25 | An offer to oneself throws IllegalArgumentException, and nothing else does. The friendships never change. The offer is passed on exactly when the two are not friends. Otherwise it is dropped and only its sender is told. |
| `FriendOffers.Accepted` | src/main/java/net/wytrem/spigot/philios/FriendOffer.java:11-14 | Acceptance stores both cells, removes none and adds no other. The gate's other state is untouched. |
| `FriendOffers.AcceptedThenFriends` | src/main/java/net/wytrem/spigot/philios/FriendOffer.java:12-14 | After acceptance, each player is the other's friend, as the service sees it. |
| `FriendOffers.AcceptKeepsSymmetric` | src/main/java/net/wytrem/spigot/philios/FriendOffer.java:12-14 | Acceptance keeps the relation symmetric. |
| `FriendOffers.AcceptIdempotent` | src/main/java/net/wytrem/spigot/philios/FriendOffer.java:12-14 | Accepting between friends, or accepting twice, changes nothing more. |
| `FriendOffers.PostAfterAcceptRejected` | src/main/java/net/wytrem/spigot/philios/FriendOffersManager.java:18-25 | After acceptance, a new offer between the pair, in either direction, is dropped and its sender told. |
| `FriendOffers.PostDecisionSymmetric` | src/main/java/net/wytrem/spigot/philios/FriendOffersManager.java:18-25 | On a symmetric table, the gate decides the same way whichever player proposes. |
| `FriendOffers.ProposeAcceptRemovePropose` | src/main/java/net/wytrem/spigot/philios/FriendOffersManager.java:13-25 | An offer between strangers is passed on and accepted. A repeat is then dropped. After the remove command, the repeat is passed on again. |
| `ChatComponents.Joining` | src/main/java/net/wytrem/spigot/philios/ChatComponents.java:13-19 | The result has empty text and 2n children: the delimiter at even positions, and the elements in order at odd ones. |
| `ChatComponents.JoiningText` | src/main/java/net/wytrem/spigot/philios/ChatComponents.java:10-12 | The same, with a text-component delimiter. |
| `ChatComponents.Concatenating` | src/main/java/net/wytrem/spigot/philios/ChatComponents.java:21-25 | The result's children are exactly the elements, in order. |
| `ChatComponents.Interleave` | src/main/java/net/wytrem/spigot/philios/ChatComponentJoiner.java:183-199 | n elements with a delimiter between consecutive ones make 2n-1 parts, and none make none. |
| `ChatComponents.InterleaveAt` | src/main/java/net/wytrem/spigot/philios/ChatComponentJoiner.java:183-199 | The elements sit at the even positions, in order, and the delimiter at every odd one. |
| `ChatComponents.JoiningLeadsWithDelimiter` | src/main/java/net/wytrem/spigot/philios/ChatComponents.java:13-19 | As written, a non-empty join is a leading delimiter followed by the elements with the delimiter between them. |
| `ChatComponents.JoiningIntended` | src/main/java/net/wytrem/spigot/philios/ChatComponents.java:13-19 | The corrected reducer gives exactly the elements with the delimiter between them, with no leading delimiter. |
| `ChatComponents.JoiningAppend` | src/main/java/net/wytrem/spigot/philios/ChatComponents.java:13-19 | Joining two streams one after the other concatenates their children. |
| `ChatComponentJoiner.AppendAll` | src/main/java/net/wytrem/spigot/philios/ChatComponentJoiner.java:143-145 | Appending parts one by one appends them all, in order. |
| `ChatComponentJoiner.New` | src/main/java/net/wytrem/spigot/philios/ChatComponentJoiner.java:64-93 | A null delimiter throws NullPointerException, and nothing else does. A new joiner is empty, and its empty value is the prefix (if any) followed by the suffix (if any). |
| `ChatComponentJoiner.NewWithDelimiter` | src/main/java/net/wytrem/spigot/philios/ChatComponentJoiner.java:45-47 | A null delimiter throws NullPointerException, and nothing else does. Otherwise the joiner has that delimiter and no prefix or suffix, is empty, and creates the empty array. |
| `ChatComponentJoiner.Create` | src/main/java/net/wytrem/spigot/philios/ChatComponentJoiner.java:158-173 | Creating leaves the joiner as it was. It gives the empty value while nothing has been added, and otherwise the parts followed by the suffix. |
| `ChatComponentJoiner.SetEmptyValue` | src/main/java/net/wytrem/spigot/philios/ChatComponentJoiner.java:109-113 | A null value throws NullPointerException. Only the empty value changes: prefix, delimiter, suffix and builder stay as they were. The new value is what an empty joiner creates, and it changes nothing once something has been added. |
| `ChatComponentJoiner.PrepareBuilder` | src/main/java/net/wytrem/spigot/philios/ChatComponentJoiner.java:188-199 | A non-empty builder gets the delimiter appended. An empty joiner starts a builder holding only the prefix. |
| `ChatComponentJoiner.Add` | src/main/java/net/wytrem/spigot/philios/ChatComponentJoiner.java:183-186 | The first element follows the prefix; every later one follows a delimiter. |
| `ChatComponentJoiner.AddAll` | src/main/java/net/wytrem/spigot/philios/ChatComponentJoiner.java:183-186 | Adding changes only the builder, and adding anything makes the joiner non-empty. |
| `ChatComponentJoiner.AddAllFromEmpty` | src/main/java/net/wytrem/spigot/philios/ChatComponentJoiner.java:183-199 | Adding e1..en to a fresh joiner builds prefix, e1, d, ..., d, en. |
| `ChatComponentJoiner.Merge` | src/main/java/net/wytrem/spigot/philios/ChatComponentJoiner.java:134-148 | As written: null throws NullPointerException and the same object throws IllegalArgumentException. An empty other changes nothing. Otherwise the builder is prepared and every part of other's builder except part 0 is appended. |
| `ChatComponentJoiner.MergeIntended` | src/main/java/net/wytrem/spigot/philios/ChatComponentJoiner.java:134-148 | The same contract, with only other's prefix skipped. |
| `ChatComponentJoiner.Collect` | src/main/java/net/wytrem/spigot/philios/ChatComponentJoiner.java:272-277 | No elements give prefix followed by suffix. Otherwise the result is prefix, the delimited elements, then suffix. |
| `ChatComponentJoiner.CollectText` | src/main/java/net/wytrem/spigot/philios/ChatComponentJoiner.java:243-245 | The same, with text components and a null prefix or suffix left out. |
| `ChatComponentJoiner.CollectDelimited` | src/main/java/net/wytrem/spigot/philios/ChatComponentJoiner.java:255-257 | With no prefix or suffix, the result is just the delimited elements. `joining(String)` at lines 226-228 is this collector with a text delimiter. |
| `ChatComponentJoiner.Concatenate` | src/main/java/net/wytrem/spigot/philios/ChatComponentJoiner.java:206-208 | The `joining()` accumulator gives exactly the elements, in order. |
| `ChatComponentJoiner.CombineBuilders` | src/main/java/net/wytrem/spigot/philios/ChatComponentJoiner.java:209-214 | The `joining()` combiner gives the first builder's parts followed by the second's. |
| `ChatComponentJoiner.CreateTwice` | src/main/java/net/wytrem/spigot/philios/ChatComponentJoiner.java:158-173 | A second create gives the same array. |
| `ChatComponentJoiner.AddedJoinerIgnoresEmptyValue` | src/main/java/net/wytrem/spigot/philios/ChatComponentJoiner.java:158-163 | Once something has been added, whatever empty value is set is never created. |
| `ChatComponentJoiner.FreshJoinerCreatesPrefixAndSuffix` | src/main/java/net/wytrem/spigot/philios/ChatComponentJoiner.java:79-93 | A fresh joiner creates its prefix followed by its suffix. |
| `ChatComponentJoiner.MergeIntendedCombines` | src/main/java/net/wytrem/spigot/philios/ChatComponentJoiner.java:134-148 | With the corrected merge, merging the joiners of two halves of a stream equals joining the whole stream. |
| `ChatComponentJoiner.MergeWithPrefixCombines` | src/main/java/net/wytrem/spigot/philios/ChatComponentJoiner.java:142-145 | As written, merge is right when the joiners have a prefix. |
| `ChatComponentJoiner.MergeWithoutPrefixDropsFirst` | src/main/java/net/wytrem/spigot/philios/ChatComponentJoiner.java:142-145 | As written, without a prefix, merging [b] into [a] gives [a, d], while joining [a, b] gives [a, d, b]. |

## Left out

- File system: whether `friendships.txt` exists, deleting and creating it, the writer, character decoding, and every IOException path with its logged warning. The file's content is a parameter, with `None` for a missing file, and a save always writes.
- Log messages: the counts of loaded and saved friendships.
- Uuids.FromStr: accepts only the canonical 8-4-4-4-12 form (either case). `UUID.fromString` also accepts shorter groups. A saved file only ever holds the canonical form.
- JavaStrings.ReadLines: splits on '\n' only. `Files.lines` also ends lines at "\r" and "\r\n".
- Philios.AddFriendship: takes non-null identifiers. `Philios.addFriendship` and `removeFriendship` do no null check of their own, and what Guava's table does with a null key is not part of this model.
- SavedData.Enable: a failed enable returns only the exception. The table field, installed before the load, still holds the cells of the lines before the malformed one; that table is `LoadSavedData(file).table`, and the failed result does not carry it.
- ChatComponentJoiner.SetEmptyValue: `setEmptyValue` stores the caller's array without copying it, although its documentation says a copy is made, and `create()` hands that same array back, so caller and joiner share it. Arrays are values in this model, so that aliasing is not represented.
- ChatComponentJoiner.Add: adding a null element is left out. What happens depends on `ComponentBuilder.append`, which is not part of this model.
- Component copies (`duplicate()`) are not distinguished from the original, because components are values here. Formatting, click events, display names and `buildFriend`/`buildRemoveText`/`baseFriend` are covered by the `render` parameter. The grey colour code (`ChatColor.GRAY`) in front of the closing "." is dropped: the model's closing part is the plain text ".".
- Parallel streams: the collectors are modelled on sequential streams. `ChatComponents.joining` mutates its single identity component, which parallel use would share. The merge step appears only in the merge lemmas.
- The command framework: building, registering and dispatching commands, argument parsing, and requiring a player sender. The header messages sent before each friend list (`onlineFriends`, `offlineFriends`) are not modelled.
- Online status (`PlayerStatus`, `isOnline`, `getOnline`) is the `online` set parameter. The iteration order of a set (the table's cell set, a column's key set) is a parameter constrained to list every member once.
- The generic offer workflow (`OffersManager`, `Offer`): queuing, expiry, and the accept, deny, take-back and pending commands. The gate's `posted` list stands for the generic `post`.
- `Philios.getFriendships()` is called by `FriendOffersManager` but is not defined in `Philios.java`. The model gives the gate and the acceptance callback one shared friendship table.
- `getFriends` returns a live view of the table. The model returns the set as it stands.
- The plugin singleton (`Philios.instance`), `getCodeName`, and the `Texts` registry loading.

### Behaviour a reader might not expect (the model follows the code)

- A null identifier raises NullPointerException, from Guava's `checkNotNull`.
- Each loaded line puts one directed cell, not both cells of a pair. A symmetric table survives because both of its cells are saved.
- A malformed line stops the load but keeps the cells of the lines before it. The exception is not an IOException, so it escapes `onEnable`.
- `addFriendship(a, a)` is accepted and stores (a, a). Only `areFriends` rejects equal arguments.
- An empty friend list sends a line holding just "." and no separate "no friends" message. The `youHaveNoOnlineFriends` text is declared and loaded (Philios.java:248 and 263) but never sent.

## Findings

| source | as written | input that shows it | evidently intended | confidence | as-written member | corrected member |
|---|---|---|---|---|---|---|
| src/main/java/net/wytrem/spigot/philios/ChatComponentJoiner.java:142-145 | `merge` always skips part 0 of the other builder, assuming it is the prefix | two joiners with delimiter d and no prefix, holding [a] and [b]: merging gives [a, d], while joining the whole stream gives [a, d, b] | skip part 0 only when the joiner has a prefix, so that merging two halves equals joining the whole | high, not executed | `ChatComponentJoiner.MergeWithoutPrefixDropsFirst` | `ChatComponentJoiner.MergeIntendedCombines` |
| src/main/java/net/wytrem/spigot/philios/ChatComponents.java:13-19 | the reducer adds the delimiter before every element, the first one included | friends [a, b] listed with `joining(", ")` give ", a, b." | the delimiter only between elements, "a, b.", as the joiner's own `joining(delimiter)` collector produces | medium, not executed | `ChatComponents.JoiningLeadsWithDelimiter` | `ChatComponents.JoiningIntended` |

`Philios.FriendsMessage` describes the line the plugin actually sends, so it keeps the as-written join.
