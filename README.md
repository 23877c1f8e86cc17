# Shared folders and folder links, modelled in Dafny

The system is a Telegram bot that keeps users' folders and files in an SQLite
database. This project models two pieces of it.

**The folder graph engine (`db_functions.py`).** Every folder row has:
- a child list of typed references, `F:<id>` for a folder and `D:<id>` for a file;
- a share counter, `count_of_users`.

A folder can be shared into several other folders, so the folders form a
directed acyclic graph, not a tree. The engine has three traversals:
- `cycle_BFS` refuses a share that would close a cycle;
- `delete_DFS` sorts a subtree into rows to delete and shared folders to decrement;
- `change_cnt_DFS` adds a delta to every counter below a folder, each time its depth-first walk arrives there, so once for every path from the start.

It also has three mutators, which act on the folder a user stands in (the
last segment of the user's path):
- `create` adds a new folder or file under it;
- `add_folder` shares an existing folder into it;
- `delete` unlinks a child from it.

**The link codec (`src/config.py`).** `crypt` reads a string as a big-endian
numeral over one alphabet and writes the same number in the other alphabet.
`encoding_folder` turns a folder id and a name padded to 50 characters into
the token `<crypt(id)>:<crypt(name)>`, and `decoding_folder` reverses it.

The Dafny modules:
- `Wrappers`: `Option` and `Result`.
- `Alphabets`: the two character tables, and the proofs that their characters are distinct, that they have 66 and 162 characters, and that the link alphabet has no colon.
- `LinkCodec`:
  - `MyPow`;
  - `Crypt`, with its two loops as the methods `ReadNumeral` and `WriteNumeral`, each proved against a pure numeral function;
  - the token functions and the round-trip lemmas.
- `FolderGraph`: references, rows, walks, and the ghost ranks that make every traversal terminate.
- `CycleCheck`: `cycle_BFS` as a function, with lemmas showing it decides reachability.
- `DeletePlan`: `delete_DFS` as a function, with lemmas about what its plan covers.
- `ShareCount`: what `change_cnt_DFS` does to the counters, as a specification over the graph.
- `FolderStore`: the class `Store`:
  - it holds the Folders, Files and Users tables as maps;
  - its methods `ChangeCount`, `Create`, `AddFolder` and `Delete` rewrite those maps in place, as the source's UPDATE, INSERT and DELETE statements do.

The store carries a ghost rank for every folder. The rank grows along every
folder-to-folder edge and stays below a ghost bound, so the graph is acyclic:
- `Create` gives a new folder the bound as its rank;
- `AddFolder` lifts the ranks of everything below the shared folder above the tip;
- the proof that this lift is sound uses the answer of `cycle_BFS`.

Behaviours of the code that the model keeps as they are:
- No mutator runs in a transaction. A failure part-way through leaves earlier writes in place, and every contract states the store on each way out.
- `delete_DFS` treats the root like any other folder. A root whose counter is above 1 is only decremented, and its own reference is still removed from the tip (db_functions.py:35-40).
- `delete` classifies the subtree before it unlinks the reference.
- `create` does not check the name length.
- `create` gives a new folder its parent's counter.
- A reference to a missing row is not skipped. It raises, through `fetchone()` returning `None`, and the model returns `Err(Missing)`.

## Model

| member | source | states |
|---|---|---|
| LinkCodec.MyPow | src/config.py:22-38 | my_pow(value, power) is value to the power `power` for every power ≥ 0 |
| LinkCodec.PowSquare | src/config.py:35-38 | (value·value)^k = value^(2k), the identity behind both squaring branches |
| LinkCodec.IndexIn | src/config.py:15-16 | the character table lookup succeeds exactly for characters of the table; the index holds that character and no later position does (the dictionary keeps the last index) |
| LinkCodec.DigitsOf | src/config.py:64-66 | a string has a digit sequence exactly when all its characters are in the input table; one digit per character, each naming that character |
| LinkCodec.BaseDigits | src/config.py:69-74 | the digits of n in a base ≥ 2 are below the base, start with no zero digit, and their big-endian value is n |
| LinkCodec.ReadNumeral | src/config.py:64-66 | the for loop computes the big-endian value Σ dict[s[i]]·base^(len−i−1), and fails (KeyError) exactly when a character is outside the input alphabet |
| LinkCodec.WriteNumeral | src/config.py:69-74 | the while loop and the final reversal write the number's output-base digits, most significant first, with no leading zero digit; 0 gives "" |
| LinkCodec.Convert | src/config.py:53-74 | reading and then writing converts the string exactly as the numeral specification Rebase does |
| LinkCodec.Crypt | src/config.py:41-74 | crypt picks ALPHABET→SYMBOLS to encode and SYMBOLS→ALPHABET to decode, and its result is that conversion |
| LinkCodec.Rebase | src/config.py:64-74 | the conversion is defined exactly for strings over the input alphabet |
| LinkCodec.BaseDigitsOfBigEndian | src/config.py:69-74 | writing out the value of a digit sequence gives back that sequence without its leading zeros |
| LinkCodec.RebaseKeepsValue | src/config.py:64-74 | the output is over the output alphabet, has the same numeric value as the input, and does not start with the zero character |
| LinkCodec.RebaseRoundTrip | src/config.py:57-74 | converting to the other alphabet and back gives the input without its leading zero characters |
| LinkCodec.CryptRoundTrip | src/config.py:57-62 | crypt(crypt(s, True), False) is s without its leading spaces (space is ALPHABET's zero digit) for every s over ALPHABET |
| LinkCodec.CryptRoundTripExact | src/config.py:57-62 | crypt(crypt(s, True), False) == s when s does not start with a space |
| LinkCodec.Spaces | src/config.py:95 | the padding is n spaces |
| LinkCodec.PadName | src/config.py:95 | ljust(50) gives exactly 50 characters: the name, then spaces |
| LinkCodec.CryptValue | src/config.py:41-74 | crypt is defined exactly for strings over its input table, ALPHABET to encode and SYMBOLS to decode (KeyError otherwise) |
| LinkCodec.Reverse | src/config.py:74 | result[::-1] has the same length and holds the characters in reverse order |
| LinkCodec.Split | src/config.py:110 | split(':') gives at least one part, and no part contains the separator |
| LinkCodec.SplitJoin | src/config.py:110 | joining the parts of split with the separator gives back the string |
| LinkCodec.JoinSplit | src/config.py:97-110 | separator-free parts joined with the separator split back into exactly those parts |
| LinkCodec.Strip | src/config.py:110 | strip() keeps one contiguous piece of the string: everything before it and after it is spaces, and a non-empty result neither starts nor ends with a space |
| LinkCodec.LStrip | src/config.py:110 | the leading spaces are dropped: the result is a suffix, everything before it is a space, and it does not start with one |
| LinkCodec.RStrip | src/config.py:110 | the trailing spaces are dropped: the result is a prefix, everything after it is a space, and it does not end with one |
| LinkCodec.LStripAppend | src/config.py:110 | stripping leading spaces of x + y strips into y exactly when x is all spaces |
| LinkCodec.StripPadded | src/config.py:95 | stripping a name padded to 50 characters gives the stripped name |
| LinkCodec.SplitTwo | src/config.py:110 | splitting x + ":" + y at colons, with no colon in x or y, gives [x, y] |
| LinkCodec.EncodingFolder | src/config.py:77-97 | encoding_folder fails with ValueError exactly when the name is longer than 50 characters, and succeeds exactly when, in addition, the id and the padded name are over ALPHABET |
| LinkCodec.PadOver | src/config.py:95 | the padded name is over ALPHABET exactly when the name is |
| LinkCodec.TokenShape | src/config.py:97 | the token splits at ':' into exactly the two crypt outputs, both over SYMBOLS |
| LinkCodec.DecodeParts | src/config.py:110 | each ':'-separated part is decoded and stripped, and decoding is defined exactly when every part is over SYMBOLS |
| LinkCodec.DecodingFolder | src/config.py:100-110 | decoding_folder gives one entry per ':'-separated part, each part decoded by crypt(part, False) and stripped; it raises KeyError exactly when some part has a character outside SYMBOLS |
| LinkCodec.FolderTokenRoundTrip | src/config.py:77-110 | decoding_folder(encoding_folder(id, name)) == [strip(id), strip(name)] for every name of at most 50 characters over ALPHABET |
| LinkCodec.FolderTokenRoundTripExact | src/config.py:100-110 | the round trip recovers (id, name) exactly when neither has surrounding spaces |
| Alphabets.SymbolsDistinct | src/config.py:7 | SYMBOLS has 66 distinct characters |
| Alphabets.ColonNotSymbol | src/config.py:7 | SYMBOLS has no ':', so a token has exactly one colon |
| Alphabets.AlphabetShape | src/config.py:8-12 | ALPHABET has 162 characters and its zero digit is a space |
| Alphabets.AlphabetDistinct | src/config.py:8-12 | ALPHABET's characters are distinct, so its lookup table inverts indexing |
| FolderGraph.FolderIds | db_functions.py:15-18 | the next frontier takes exactly the ids of the F-tagged children; D children are never expanded, and an empty child list adds nothing |
| CycleCheck.ScanLayer | db_functions.py:10-18 | one layer: False at the first id on the path, TypeError at the first id without a row, and otherwise the next layer holds exactly the folder children of the layer's ids |
| CycleCheck.CycleBfs | db_functions.py:4-20 | True on an empty frontier; False as soon as a frontier id, the starting ids included, is on the path; an error only for a missing row |
| CycleCheck.CycleBfsSound | db_functions.py:4-20 | when cycle_BFS answers True, no starting folder reaches any path id |
| CycleCheck.CycleBfsComplete | db_functions.py:4-20 | when it answers False, some starting folder reaches some path id |
| CycleCheck.CycleBfsDecides | db_functions.py:4-20 | in a store without stale references it never raises, and answers True exactly when no path id is reachable |
| DeletePlan.DeleteDfs | db_functions.py:23-55 | a file gives just its id in "D"; a missing folder raises; a folder with count > 1, the root included, goes only to "change_cnt" without descending; otherwise the folder heads "F"; every deleted folder has count ≤ 1 and every decremented one count > 1 |
| DeletePlan.DeleteAll | db_functions.py:48-53 | the loop's result is classified (deleted folders unshared, decremented ones shared), and its only error is a missing row |
| DeletePlan.Join | db_functions.py:50-53 | the three lists of a child's result are appended to the lists collected so far, in order |
| DeletePlan.DeleteAllSnoc | db_functions.py:48-53 | one more child: its lists are appended to the three lists so far, or its error is the loop's result |
| DeletePlan.DeleteAllStops | db_functions.py:48-53 | once a prefix of the child list raises, the later children change nothing |
| DeletePlan.DeleteAllFirstError | db_functions.py:48-53 | the first child that raises decides the loop's error |
| DeletePlan.DeleteDfsClosed | db_functions.py:42-53 | every child of a folder marked for deletion is itself deleted (a file or an unshared folder) or decremented (a shared folder) |
| DeletePlan.DeleteAllCovers | db_functions.py:48-53 | every child the loop visits ends up in the plan |
| DeletePlan.DeleteDfsJustified | db_functions.py:35-53 | apart from the start, the plan names only children of folders it deletes; nothing below a decremented (shared) folder is touched |
| DeletePlan.DeleteAllJustified | db_functions.py:48-53 | every reference in the loop's plan is one of the listed children or a child of a folder the plan deletes |
| DeletePlan.SharedChildScenario | db_functions.py:23-55 | deleting an unshared folder that holds a shared folder and a file deletes the folder and the file, decrements the shared folder and leaves its child alone |
| DeletePlan.DeleteDfsBelow | db_functions.py:23-55 | every folder the plan deletes or decrements lies at or below the start |
| DeletePlan.DeleteDfsTotal | db_functions.py:31-32 | in a store without stale references, delete_DFS from a stored folder or a file never raises |
| ShareCount.Visits | db_functions.py:58-71 | the folders change_cnt_DFS updates, with multiplicity, are all stored rows |
| ShareCount.VisitsAll | db_functions.py:69-71 | the loop over a child list updates only stored rows |
| ShareCount.DiamondVisitedTwice | db_functions.py:58-71 | a folder reached along two paths from the start is updated twice |
| ShareCount.AddCounts | db_functions.py:63-64 | reference definition of the counter updates: every row keeps its fields but the counter, which gains the change once per visit; what the source promises about it is proved in AddCountsCompose, AddCountsInverse and ChangeCountRoundTrip |
| ShareCount.AddCountsCompose | db_functions.py:69-71 | two successive rounds of updates add up to one round over both visit multisets |
| ShareCount.AddCountsInverse | db_functions.py:58-71 | adding c and then −c over the same visits restores every counter |
| ShareCount.ChangeCountRoundTrip | db_functions.py:58-71 | change_cnt_DFS(v, c) followed by change_cnt_DFS(v, −c) restores every counter |
| ShareCount.VisitsSameShape | db_functions.py:58-71 | the folders change_cnt_DFS reaches depend only on the child lists, not on the counters it rewrites |
| ShareCount.OwnThenChildren | db_functions.py:63-71 | updating the folder's own counter and then looping over its children is the whole traversal |
| ShareCount.VisitsAllSnoc | db_functions.py:69-71 | the child loop, one more child at a time |
| ShareCount.VisitsAllStops | db_functions.py:69-71 | once a child raises, the later children are never visited |
| ShareCount.VisitsLocal | db_functions.py:58-71 | change_cnt_DFS from v reads only the rows below v: two stores with the same rows and child lists there give the same visits |
| ShareCount.VisitsReach | db_functions.py:58-71 | every folder change_cnt_DFS updates lies below its start |
| ShareCount.VisitsCover | db_functions.py:58-71 | when it completes, it has updated every folder below its start |
| FolderStore.Tip | db_functions.py:156 | the tip is the last segment of the user's path; a missing user raises TypeError and an empty path ValueError |
| FolderStore.UnlinkTarget | db_functions.py:206-207 | delete's tip: every failure to find it, an empty path included, is a TypeError |
| FolderStore.LinkTarget | db_functions.py:185-194 | add_folder writes only when cycle_BFS finds no path id, and then the shared folder exists and reaches no id of the path; KeyError means some path id is reachable from it |
| FolderStore.RemoveFirst | db_functions.py:210 | list.remove fails exactly when the reference is absent, and otherwise drops its first occurrence and keeps everything else in order |
| FolderStore.Purge | db_functions.py:217-218 | reference definition of executemany DELETE: exactly the rows whose ids are not listed remain, unchanged; Store.Delete's contract uses it |
| FolderStore.FolderRefs | db_functions.py:223-224 | the decrement loop calls change_cnt_DFS("F", id) for each listed id, in order |
| FolderGraph.Append | db_functions.py:176-178 | appending a reference to a folder's child list keeps the earlier children in order, every other field of that folder, and every other row |
| FolderStore.Store.ChangeCount | db_functions.py:58-71 | change_cnt_DFS rewrites the counters to AddCounts of the old store by the visits below v, touches no file, path or child list, and fails exactly when it meets a missing row |
| FolderStore.Store.ChangeCountAll | db_functions.py:69-71 | the loop over a reference list does the same for the concatenated visits and stops at the first failure |
| FolderStore.Store.Create | db_functions.py:154-180 | create appends exactly one reference (F:new for a folder, D:new for a file) to the end of the tip's child list, keeps the earlier children, inserts the row, and gives a new folder the parent's counter; when the tip is not found, nothing is written |
| FolderStore.Store.AddFolder | db_functions.py:183-199 | add_folder writes nothing when the checks fail (KeyError for a cycle); otherwise it appends F:id to the tip and raises by one the counter of every folder the depth-first walk from the shared reference visits, once per visit, and the graph stays acyclic |
| FolderStore.ShareThenUnshare | db_functions.py:183-224 | after add_folder(x) at a tip, with x's counter at least 1 before: delete of F:x at the same tip only decrements x, finds the same tip, takes the new reference off again (giving back the old child list when x was not already a child), and its −1 walk visits exactly what the +1 walk did, so every counter is restored |
| FolderStore.ShareThenDelete | db_functions.py:183-224 | running Store.AddFolder and then Store.Delete of the new link leaves the Folders, Files and Users tables as they were, and the two calls succeed or fail together |
| FolderStore.Store.Delete | db_functions.py:202-224 | delete writes nothing when classification, the tip or list.remove fails; otherwise it removes the first occurrence of the reference, deletes the classified rows, and lowers by one every counter below each decremented root |

## Left out

- The `REGEX` link filter (src/config.py:4): it is evaluated by the regular-expression engine.
- SQLite: connections, cursors and `executemany` become map reads and writes on the `Store` fields.
- `print` calls.
- `create_user`, `is_user_in_table` and `get_full_parameters` are not part of this model.
- The bot layer that pushes and pops paths is not part of this model.
- The text formats are not parsed. A child list `"F:1;D:2"` is a `seq<Ref>`, and a path `"U:1\F:5"` is the sequence of its ids. A malformed segment (an `int()` failure on corrupted text) is therefore not modelled.
- The type tag of a reference is `F` or `D`. `delete_DFS` treats any tag other than `D` as a folder; other tags are not modelled.
- The `head_text` column is not modelled.
- A NULL `private_mode` (a `None` argument) is not modelled: `privateMode` is an integer.
- FolderStore.Store.Create: the row id SQLite hands out is a parameter. Its freshness in the target table is a precondition.
- FolderGraph.Ranked: every traversal terminates because of ghost ranks, which exclude cycles. The source would recurse without end on a cyclic store. `add_folder` is what prevents cycles, and the model proves that it keeps the ranks.
- Python's recursion limit on deep `cycle_BFS`, `delete_DFS` or `change_cnt_DFS` calls is not modelled.
- DeletePlan.DeleteDfs: `fl_cnt` is a parameter. Every caller passes `True`, and the recursive calls pass it on unchanged. DeleteDfsClosed and DeleteAllCovers are stated for `True`; the totality and converse lemmas hold for either value.
- LinkCodec.MyPow: the power is a natural number. With a negative power, Python's `my_pow` would never return; nothing calls it that way.
- LinkCodec.Strip: `str.strip()` removes all whitespace, but the model removes only spaces. The only whitespace character in ALPHABET is the space, so the two agree on every `crypt` output.
- The concurrency between bot handlers is not modelled. Each method runs alone on the store.
