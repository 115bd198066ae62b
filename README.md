# SHOT room and hospital core, modelled in Dafny

SHOT (shots.py) is a small desktop tool for tracking outbreaks in hospitals.
A hospital is kept as a dict:

- its admin info;
- its buildings and departments, each a map from a name to a list of room numbers;
- one entry per room, under the key `'<hospital>_<name>_<room>'`.

A settings.ini file (read with configparser) lists the hospitals, and the
user types room lists as free text such as `"101-110, A1-A20"`.

This project models and proves properties of the logic under that:

| File | Module | What it models |
|---|---|---|
| `Text.dfy` | Text | The Python string and integer primitives the code relies on: `str.split` with a separator, `str.split()`, `isdigit`, `isalpha`, `int()` of digit strings, `str()`, zero-padded formatting. Also the Python exceptions that can end a call. |
| `RoomParser.dfy` | RoomParser | `room_list_from_arbitray_str`, the free-text room parser. Each comma token is handled as: a single word, a numeric `N-M` range, the "simple alpha" shape, or a "complex" prefix-plus-number range. It is written as functions and proved by lemmas. The source's loops (the outer token loop and the reverse digit scan) are methods proved equal to those functions. |
| `RoomCompress.dfy` | RoomCompress | The compressor inside `write_config_to`. It turns a room list into ascending singles and `lo-hi` ranges, through a loop that tests neighbours with `in`. |
| `HospitalModel.dfy` | HospitalModel | The hospital record. It covers `register_unique_room` on one record, `add_hospital_section` on one record, and the room-adding loop of the hospital dialog. It also holds the global `hospital` dict as a `Registry`, which records insertion order like a Python dict. |
| `ConfigRead.dfy` | ConfigRead | `read_config_from` over an INI file that has already been parsed. It covers the `[OPTIONS]` gate and its defaults, `[RECENT]`, the test for a hospital section, the per-piece registration, and the choice of the active hospital. All of these are total functions that return a result or the exception raised. |
| `Session.dfy` | Session | The globals `shot` and `hospital` as the class `Shot`. Its methods change them step by step as the source does: the read walk, `register_unique_room`, `add_hospital_section` through `shot['hospital']`, and the start-up read. Each method is proved against the functions of ConfigRead and HospitalModel. |

`shot['hospital']` holds the very dict stored in `hospital` (an alias), so a
change through one is seen through the other. The model records this as
`Active.Alias(hid)`. When the read walk stores a new dict under that key, the
alias is detached and keeps the old record (`Active.Own`). This matches
Python's reference semantics.

Where the code and its docstrings or comments disagree, the model follows
the code. The lemmas below then state what the code does:

- The simple-alpha gate never opens.
- A complex range leaves out its end value.
- The padding width of a complex range comes from the length of the whole side.
- On read, ranges in a room list are never expanded.
- `read_config_from` never returns True, so the start-up code treats every session as unconfigured.

## Model

| member | source | states |
|---|---|---|
| Text.Split | shots.py:594 | `s.split(sep)` always yields at least one piece, and no piece contains the separator |
| Text.JoinSplit | shots.py:594 | joining the pieces of a split with the same separator gives the text back |
| Text.SplitWithoutSeparator | shots.py:594 | a text without the separator splits into itself alone |
| Text.SplitSingleIffNoSeparator | shots.py:594 | a text splits into one piece exactly when it has no separator (both directions) |
| Text.SplitAround | shots.py:594 | splitting `a + sep + b` gives the pieces of `a` followed by the pieces of `b` |
| Text.NatToStringDigits | shots.py:601 | `str(n)` is a non-empty digit string that starts with '0' exactly when `n == 0` |
| Text.DigitsValueOfNatToString | shots.py:601 | `int(str(n)) == n` |
| Text.NatToStringOfDigitsValue | shots.py:601 | `str(int(s)) == s` for a digit string without a leading zero |
| Text.LeadingZerosDoNotCount | shots.py:601 | zeros in front of a digit string leave its `int()` value unchanged |
| Text.ZeroPadCorrect | shots.py:690 | `f"{n:0{w}d}"` has `max(w, len(str(n)))` digits, and their value is `n` |
| Text.WordCountPadded | shots.py:693 | one word with whitespace around it has `len(s.split()) == 1` |
| Text.SpacesHaveNoWords | shots.py:693 | a token of whitespace only has no words |
| Text.WordCountSeparated | shots.py:693 | two non-space characters with whitespace between them make at least two words |
| Text.WordCountAtLeast | shots.py:693 | a word that ends just before whitespace counts one more than the words after it |
| RoomParser.NumericRange | shots.py:601 | the comprehension `[str(k) for k in range(lo, hi + 1)]`; its length and contents are stated by NumericRangeToken |
| RoomParser.ComplexRange | shots.py:661-692 | the complex branch on the two sides of the hyphen; ComplexSides, ComplexRangeContents, ComplexRangeExcludesEnd and SameSidesRaise state what it gives |
| RoomParser.HyphenToken | shots.py:597-692 | a token with a hyphen: unpacking, the numeric, simple-alpha and complex branches; stated case by case by NumericRangeToken, TwoHyphensRaise, EmptyStartRaises, SimpleAlphaRangeSkipped and ReachesComplex |
| RoomParser.ExpandToken | shots.py:595-696 | what one token contributes, the whole-input `isdigit` test first; InputTestRedundant and HyphenFreeToken state it |
| RoomParser.ExpandRooms | shots.py:578-699 | the whole parser as a function: `([], [])` for a non-str, else the tokens in order with the first exception ending the call; ExpandRoomsConcat and ErrorEndsTheCall state it |
| RoomParser.SplitTrailingDigitsCorrect | shots.py:666-682 | the scan cuts a side into a pretext and its maximal trailing digit run; the two parts make the side again |
| RoomParser.SplitAtDigitRun | shots.py:666-682 | a digit run that reaches the end and follows a non-digit is exactly the trailing run the scan finds |
| RoomParser.ScanTrailingDigits | shots.py:666-682 | the reverse character scan with its `room_is_int` flag computes that cut |
| RoomParser.ExpandComplexRange | shots.py:661-692 | the complex branch as the source runs it: both sides scanned in one loop, telling the sides apart by comparing each with the start side, equals the complex-range function |
| RoomParser.ClassifyToken | shots.py:595-696 | the per-token branches, including the whole-input `isdigit` test, equal the token function |
| RoomParser.RoomListFromArbitraryStr | shots.py:578-699 | the loop over the comma tokens appends to the two lists exactly as the fold of the token function does; it stops at the first exception; a non-str argument gives `([], [])` |
| RoomParser.ExpandTokensPrefixStep | shots.py:594-696 | one more token on a prefix that has not raised adds that token's outcome |
| RoomParser.ErrorEndsTheCall | shots.py:594-699 | once a token raises, the whole call raises the same exception |
| RoomParser.ExpandTokensConcat | shots.py:594-696 | handling a token list is handling its two halves one after the other |
| RoomParser.ExpandRoomsConcat | shots.py:594-699 | tokens are handled in input order: the result for `"a,b"` is the result for `a` followed by the result for `b` |
| RoomParser.ExpandTokensByRule | shots.py:595-596 | for an input that is not all digits, the whole-input test never fires |
| RoomParser.DigitTokenKept | shots.py:693-694 | a token of digits alone is kept as it is by the per-token rules |
| RoomParser.InputTestRedundant | shots.py:594-596 | the whole-input `isdigit` test changes nothing: every input is handled token by token by the same rules |
| RoomParser.OneToken | shots.py:594 | a comma-free input is one token |
| RoomParser.HyphenFreeToken | shots.py:693-696 | a hyphen-free token is appended verbatim, whitespace included, when it is one word; an empty or multi-word token is skipped |
| RoomParser.PaddedWordKept | shots.py:693-694 | `" 102"` is kept with its space |
| RoomParser.SkippedAlone | shots.py:693-699 | a comma-free token that the rules skip is the only entry, and it is in `skipped_items` |
| RoomParser.TwoWordsSkipped | shots.py:695-696 | `"foo bar"` gives `([], ["foo bar"])` |
| RoomParser.SidesOf | shots.py:598 | `"beg-end"` with hyphen-free sides unpacks into those two sides |
| RoomParser.NumericRangeToken | shots.py:599-601 | an all-digit `N-M` token gives `str(k)` for k = N..M ascending, with leading zeros dropped; when M < N it adds nothing and skips nothing |
| RoomParser.TwoHyphensRaise | shots.py:598 | a token with two or more hyphens raises ValueError at the unpacking |
| RoomParser.EmptyStartRaises | shots.py:602 | a token with an empty start side (`"-5"`) raises IndexError |
| RoomParser.LetterThenEmptyEndRaises | shots.py:602 | a start side that begins with a letter, with an empty end side (`"A-"`), raises IndexError |
| RoomParser.SimpleAlphaGateNeverOpens | shots.py:616-617 | for a letter followed by digits, the sortedness test on the first two characters fails, because a digit sorts before every letter |
| RoomParser.SimpleAlphaRangeSkipped | shots.py:602-660 | so every simple-alpha token (`"A01-A03"`, `"A20-B20"`) ends in `skipped_items` |
| RoomParser.ReachesComplex | shots.py:597-661 | which tokens reach the complex branch: one hyphen, not both sides digits, and not the simple-alpha shape |
| RoomParser.PrefixedReachesComplex | shots.py:597-661 | sides made of a pretext ending in a non-digit, followed by digits, reach the complex branch |
| RoomParser.PrefixedSides | shots.py:666-687 | the scan cuts such sides at the end of the pretext, and the padding width is that of the longer side after its first character |
| RoomParser.ComplexSides | shots.py:684-692 | with equal pretexts and digit runs, the branch emits the items from start up to end when start < end, and skips otherwise |
| RoomParser.ComplexRangeContents | shots.py:684-690 | a complex range gives hi - lo rooms; each is the pretext followed by a zero-padded number k with lo <= k < hi, at least as wide as the width taken from the whole side |
| RoomParser.ComplexRangeExcludesEnd | shots.py:690 | the end value never appears among the rooms of a complex range |
| RoomParser.ComplexItemsFacts | shots.py:690 | the k-th item of a complex range is the pretext followed by `lo + k` zero-padded |
| RoomParser.SameSidesRaise | shots.py:666-684 | when both sides are the same text, the end-side variables are never assigned, and the token raises |
| RoomParser.PrefixedRangeToken | shots.py:684-690 | `p+x-p+y` with x < y gives the items of p from x up to y, excluding y, padded to the width of the longer side, pretext included |
| RoomParser.PrefixedDescendingSkipped | shots.py:684-692 | the same shape with a descending (or equal-valued) pair of numbers is skipped |
| RoomParser.HashRange | shots.py:684-690 | `"#5-#9"` gives `#5..#8` |
| RoomParser.PaddedToTailLength | shots.py:684-690 | `"HS10B100-HS10B102"` gives `"HS10B0000100", "HS10B0000101"` |
| RoomCompress.SortedDistinct | shots.py:219-220 | `sorted(set(xs))` built by insertion; SortedDistinctCorrect states it is strictly increasing with exactly the elements of xs |
| RoomCompress.CompressRuns | shots.py:224-234 | the written list of a sorted distinct list, run by run; CompressRunsCorrect and CanonicalIsCompressRuns state it |
| RoomCompress.CompressRooms | shots.py:218-234 | the compressor for one room list; CompressRoundTrip and CompressDependsOnlyOnSet state it |
| RoomCompress.RoomsAsInt | shots.py:218 | `int()` of every room, element by element |
| RoomCompress.InsertCorrect | shots.py:219-220 | inserting into a strictly increasing sequence keeps it strictly increasing, and adds exactly that element |
| RoomCompress.SortedDistinctCorrect | shots.py:219-220 | `sorted(set(xs))` is strictly increasing and has exactly the elements of xs |
| RoomCompress.RunLength | shots.py:224-234 | the length of the run of consecutive numbers at the start is maximal |
| RoomCompress.CompressRoomList | shots.py:212-234 | the compressor's output is the canonical list of maximal runs (ranges of two or more, `lo-hi`, and singles), and expands to the sorted distinct room numbers |
| RoomCompress.CompressSorted | shots.py:224-234 | the neighbour-testing loop (`disroom+1 in`, `disroom-1 in`, `array_beg`) computes the run-by-run compression of a strictly increasing list |
| RoomCompress.Advance | shots.py:224-234 | one iteration of that loop keeps the loop invariant, in each of its four cases |
| RoomCompress.NeighbourTests | shots.py:225-231 | in a sorted distinct list, `x+1 in` holds exactly when x+1 is the next element, and `x-1 in` exactly when x-1 is the previous one |
| RoomCompress.LoopDone | shots.py:224-234 | at the loop's end, the items written are the whole compression |
| RoomCompress.CompressRunsCorrect | shots.py:224-234 | the compressed form of a strictly increasing list is canonical and expands back to it |
| RoomCompress.CanonicalIsCompressRuns | shots.py:224-234 | the canonical form is unique: canonical items are the compression of their own expansion |
| RoomCompress.SortedUnique | shots.py:219-220 | two strictly increasing lists with the same elements are equal |
| RoomCompress.CompressDependsOnlyOnSet | shots.py:218-234 | the written list depends only on the set of room numbers; order and duplicates make no difference |
| RoomCompress.CompressRoundTrip | shots.py:218-234 | expanding the written list gives each room number once, ascending, and exactly the numbers of the input |
| RoomCompress.CompressExpandRoundTrip | shots.py:224-234 | compressing the expansion of a canonical list gives that list again |
| RoomCompress.CompressExample | shots.py:218-234 | `101, "102", 103, 105, 101` is written as `101-103, 105` |
| HospitalModel.RoomKey | shots.py:382-383 | `'_'.join((hospital, name, room))`; RoomKeysDistinct and DifferentNamesDifferentKeys state when two keys differ |
| HospitalModel.RegisterRoom | shots.py:374-389 | `register_unique_room` on one record; its effect is stated by RegisterRoomEffect |
| HospitalModel.RegisterRoomEffect | shots.py:374-389 | `register_unique_room` appends `int(room)` to the name's list, with duplicates. It adds exactly the key `'<hid>_<name>_<room>'`. It keeps the status of an existing entry and gives a new one status None. It sets the entry's bld/dep field to the name, and nothing else changes. |
| HospitalModel.RegisterTwiceSameRooms | shots.py:381-389 | registering the same room twice leaves the room entries as one registration does |
| HospitalModel.RegisterTwiceKeepsDuplicates | shots.py:381 | the name's list gets the room twice |
| HospitalModel.RegisterKeepsStatus | shots.py:384-388 | an existing status survives registration |
| HospitalModel.SameNameSharesEntry | shots.py:382-389 | a building and a department with the same name share one room entry, which names both |
| HospitalModel.LeadingZeroKeyDiffers | shots.py:381-383 | `"007"` and `"7"` are listed as the same number but get different keys |
| HospitalModel.RoomKeysDistinct | shots.py:382-383 | within a hospital, digit rooms get distinct keys for distinct (name, room) pairs |
| HospitalModel.DifferentNamesDifferentKeys | shots.py:382-383 | the same room under two different names gets two keys |
| HospitalModel.CutAtLast | shots.py:383 | the key splits uniquely at its last '_' when the tail has none |
| HospitalModel.AddSection | shots.py:1605-1626 | `add_hospital_section` on a record: True exactly when the name was absent; False leaves the record as it is; True adds that name with an empty list to the grouping, which is created when missing |
| HospitalModel.AddSectionTwice | shots.py:1620-1626 | a second add of the same name returns False and changes nothing |
| HospitalModel.AddSectionAddsOnlyName | shots.py:1624-1626 | a successful add adds exactly that name, with an empty list, and keeps every other name |
| HospitalModel.SetUpNameLists | shots.py:1490-1502 | the dialog's first loop creates each chosen name's list when missing, and changes nothing else; both groupings always exist when it runs, because the dialog's record gets them at shots.py:1076-1077 or comes from a copy whose 'dep' and 'bld' were just read (shots.py:1100-1102) |
| HospitalModel.DialogKey | shots.py:1510-1514 | the dialog's key: the bare room id when no building and no department is chosen, else `'<hospital>_<building>_<room>'`; DialogKeyIgnoresDepartment and DialogKeyDiffersFromReadKey state it |
| HospitalModel.AppendRoomIds | shots.py:1506-1519 | the dialog's room loop appends every id to the chosen lists, and overwrites the entry of each dialog key with status None and the chosen names |
| HospitalModel.AddRoomsFromDialog | shots.py:1490-1519 | the whole dialog step on the dialog's copy: lists extended in order, and exactly the dialog keys overwritten |
| HospitalModel.ListsAfterInTwoSteps | shots.py:1490-1507 | the lists after the dialog are the set-up lists with the ids appended |
| HospitalModel.DialogKeysStep | shots.py:1510-1514 | one more id adds its key to the keys written |
| HospitalModel.DialogEntries | shots.py:1510-1519 | after the dialog, every id's key holds the fresh entry, every other entry is as it was, and the key set grows by exactly the dialog keys |
| HospitalModel.DialogTwice | shots.py:1506-1519 | adding the same rooms again leaves the entries as they were, while the lists get the ids a second time |
| HospitalModel.DialogKeyIgnoresDepartment | shots.py:1510-1514 | the dialog key does not depend on the department once a building or a department is chosen |
| HospitalModel.DialogKeyDiffersFromReadKey | shots.py:1510-1514 | with a department and no building, the dialog key has an empty building part, and differs from the key the read gives the same room under that department |
| HospitalModel.Registry.Put | shots.py:401 | `hospital[hid] = h` on the dict with its key order; PutValid, PutSame and PutTwice state it |
| HospitalModel.PutValid | shots.py:401 | `hospital[hid] = h` keeps the dict a dict and stores h. It keeps every other record. A new key goes last; an existing key keeps its place. |
| HospitalModel.PutSame | shots.py:381-389 | storing the record a key already holds changes nothing |
| HospitalModel.PutTwice | shots.py:401-437 | assigning one key twice is assigning the second value once |
| ConfigRead.FindSectionFound | shots.py:274 | `config[name]` finds a section exactly when one has that name, and the one found has it |
| ConfigRead.LookupFound | shots.py:394-396 | a key is found exactly when the section has a line with it, and the value is that of its first line |
| ConfigRead.ReadOptions | shots.py:274-289 | the `[OPTIONS]` gate and its values; OptionsGate and OptionsDefaults state it |
| ConfigRead.RecentFiles | shots.py:291-295 | the `[RECENT]` values; RecentInOrder states it |
| ConfigRead.OptionsGate | shots.py:274-289 | the call returns False at the gate exactly when `[OPTIONS]` is missing, when `user` is absent or has no value, or when `language` is there without a value (an absent `language` is allowed) |
| ConfigRead.OptionsDefaults | shots.py:277-286 | the user is taken as written. A missing language is 'English', a missing unique 'FNR', a missing hospital None. A key without a value gives None. |
| ConfigRead.RecentInOrder | shots.py:292-295 | `[RECENT]` is read line by line in file order; without the section the list is empty |
| ConfigRead.HospitalLinks | shots.py:394-398 | the hospital-section test and the lookups between its two tests; HospitalTest and DepartmentsDecides state it |
| ConfigRead.LoadInfo | shots.py:405-413 | the seven info keys; MissingInfoRaises states its error |
| ConfigRead.HospitalTest | shots.py:394-398 | a section is a hospital exactly when it has a non-empty buildings value and a departments value naming an existing section; the test raises KeyError exactly when departments is there and buildings is not |
| ConfigRead.DepartmentsDecides | shots.py:394 | without a departments key a section is never a hospital, whatever its buildings key says |
| ConfigRead.MissingBuildingsRaises | shots.py:415-424 | a linked buildings section that does not exist raises KeyError |
| ConfigRead.MissingInfoRaises | shots.py:405-413 | a missing info key raises KeyError |
| ConfigRead.DigitPieces | shots.py:431-432 | the pieces registered are digits only |
| ConfigRead.ReadIdsSnoc | shots.py:431-433 | a digit piece at the end adds its number at the end |
| ConfigRead.RegisterPiecesLists | shots.py:428-439 | the name's list gets `int(piece)` of every digit piece, in order with duplicates; the other names, the other grouping and the info are untouched |
| ConfigRead.RegisteredStep | shots.py:374-389 | one more registration adds exactly its key to the entries registered |
| ConfigRead.RegisterPiecesRooms | shots.py:431-439 | after the pieces loop, exactly the keys of the digit pieces are added; each names the list; old statuses stay and new ones are None; other entries are untouched |
| ConfigRead.HyphenNotRegistered | shots.py:432-439 | one more piece with a hyphen leaves the record exactly as the pieces before it made it: ranges are not expanded on read |
| ConfigRead.NothingRegistered | shots.py:431-439 | when no piece is digits only, the record is unchanged |
| ConfigRead.ThreePieces | shots.py:431 | three comma-free pieces joined by commas split back into those three |
| ConfigRead.FirstOfThreeRegistered | shots.py:432 | of three pieces of which only the first is digits, only the first is registered |
| ConfigRead.PiecesExample | shots.py:431-439 | `"200, 304,400-402"` registers 200 only |
| ConfigRead.LoadEntry | shots.py:428-439 | one `name = rooms` line: the list reset to [] and the pieces registered, AttributeError without a value; LoadEntriesFails and LoadEntriesLists state it |
| ConfigRead.LoadElement | shots.py:415-439 | `hospital[hid][elem] = {}` and the lines of the linked section, KeyError when it is missing; MissingBuildingsRaises and Session.Shot.LoadElementInto state it |
| ConfigRead.LoadHospital | shots.py:401-439 | the record of one hospital section: info, buildings, then departments; MissingInfoRaises and MissingBuildingsRaises state its errors |
| ConfigRead.LoadEntriesFails | shots.py:424-431 | reading a section's lines raises exactly when one of them has no value, and then raises AttributeError |
| ConfigRead.LoadEntriesLists | shots.py:424-439 | each key of a section ends with exactly the numbers of its own digit pieces; an earlier list for the name is replaced, not extended |
| ConfigRead.LoadEntriesPrefixStep | shots.py:424-439 | one more line on a prefix that has not raised |
| ConfigRead.LoadEntriesErrorEnds | shots.py:424-439 | once a line raises, the whole section raises the same way |
| ConfigRead.WalkStep | shots.py:392-439 | one section of the walk; WalkStepShape states it |
| ConfigRead.Walk | shots.py:392-439 | the walk over `config.sections()` in order; WalkValid, WalkFromEmpty and WalkErrorEnds state it |
| ConfigRead.WalkPrefixStep | shots.py:392-439 | one more section on a prefix that has not raised |
| ConfigRead.WalkErrorEnds | shots.py:392-439 | once a section raises, the whole walk raises the same way |
| ConfigRead.WalkStepShape | shots.py:392-439 | a section either leaves the dict and the count alone, or (for a hospital) stores a record under its name and counts it |
| ConfigRead.WalkLast | shots.py:392-439 | the walk is the walk over all but the last section, then the last one |
| ConfigRead.StoredValid | shots.py:400-401 | storing a record keeps the dict a dict, non-empty, with its earlier keys in front |
| ConfigRead.WalkValid | shots.py:392-439 | the walk keeps the dict a dict and keeps the keys it started with in front; a non-zero count means a non-empty dict |
| ConfigRead.HospitalNamesFrom | shots.py:392-401 | every hospital name is a section name |
| ConfigRead.WalkFromEmpty | shots.py:392-401 | from an empty dict, with distinct section names, the dict's keys are the hospital sections in file order, and the count is their number |
| ConfigRead.Conclude | shots.py:456-490 | the tail of the call never returns False |
| ConfigRead.ReadConfig | shots.py:264-490 | the whole call; RejectedAtGate, UnknownHospitalRaises, NamedHospitalActive and DefaultHospitalIsFirst state it |
| ConfigRead.RejectedAtGate | shots.py:274-289 | the whole call returns False exactly at the `[OPTIONS]` gate |
| ConfigRead.UnknownHospitalRaises | shots.py:478-481 | a hospital named in `[OPTIONS]` that the walk did not store raises KeyError |
| ConfigRead.NamedHospitalActive | shots.py:456-490 | a stored hospital named in `[OPTIONS]` becomes the active one, marked as coming from the settings, with the conf values as read |
| ConfigRead.DefaultHospitalIsFirst | shots.py:456-490 | with no hospital named, a start-up read makes the first hospital section of the file active; with no hospital section, `shot['hospital']` is None and not from the settings |
| Session.Shot.constructor | shots.py:80-86 | `shot = {}` and `hospital = {}` |
| Session.Shot.RegisterUniqueRoom | shots.py:374-389 | the in-place update of the nested dicts stores exactly the record that `register_unique_room` describes, under hid, and changes nothing else |
| Session.Shot.RegisterPiecesFrom | shots.py:431-439 | the pieces loop run in place on `hospital[hid]` stores the record of the pieces fold |
| Session.Shot.LoadEntryInto | shots.py:428-439 | one line resets the name's list and registers its pieces, or raises AttributeError, as the line function says |
| Session.Shot.LoadElementInto | shots.py:415-439 | `hospital[hid][elem] = {}` and then the lines of the linked section, in place, give the record of the section function or its exception |
| Session.Shot.LoadHospitalInto | shots.py:399-439 | one hospital section stored under its name gives the record of the hospital function. An alias to the replaced dict is detached and keeps the old record. |
| Session.Shot.WalkSection | shots.py:392-439 | one section of the walk, in place, computes the step function; the active hospital stays or is detached |
| Session.Shot.WalkSections | shots.py:370-439 | the loop over `config.sections()` leaves `hospital` and the count as the walk function does, or raises its exception |
| Session.Shot.ReadRecent | shots.py:291-295 | the `[RECENT]` loop collects the values in order |
| Session.Shot.Conclude | shots.py:456-490 | the tail sets `hospital_from_settings`, aliases `shot['hospital']` to the chosen record (or sets it to None) and sets the conf values, or raises KeyError |
| Session.Shot.ReadConfigFrom | shots.py:264-490 | the whole call: returns False with nothing touched, or returns None with `hospital` and `shot` as the read function gives, or raises its exception |
| Session.Shot.AddHospitalSection | shots.py:1605-1626 | `add_hospital_section` through `shot['hospital']`. Through an alias it changes the record stored in `hospital`. A dict of the session's own is updated in place. When the key is absent or None, a fresh dict is used. The result is that of the record function. |
| Session.Shot.Startup | shots.py:2597-2613 | the start-up read. A file read in full still returns None, so the session runs unconfigured: the conf values are reset, while the hospitals read and `shot['hospital']` stay. |

## Left out

- The GUI (all `popup_*` and `tab_*` functions, the window, the event loop, and the string tables and icons) is not part of this model. The dialog's room loop is modelled on its own. Its arguments stand for what `popup_new_room` returns.
- configparser's own text parsing and writing is not modelled. That covers key lower-casing, value stripping, the DEFAULT section, and duplicate section or key errors. It also covers value interpolation: the parser at shots.py:271 keeps configparser's default BasicInterpolation, so every value read (shots.py:277-286, 294, 396-397, 405-413, 424) has '%%' read as '%', and a lone '%' raises InterpolationSyntaxError out of read_config_from. The model takes each value as written and never raises that error. The model takes the parsed sections as its input, and `DistinctNames` states what configparser guarantees where a lemma needs it.
- Reading the file and testing whether it exists (`shot_config_file.is_file()`) are I/O. Both become parameters of `Session.Shot.Startup`, and the printed messages are left out.
- The rest of `write_config_to` is not modelled. It reads `'name'`, `'buildings'` and `'blds'`, which the read side never creates, and it hands lists to configparser. Only its compressor is modelled.
- The national-number helpers (`is_fnr`, `age_from_fnr`, `gender_from_fnr`) are left out. They compare a str with an int, read the clock, and test a function object.
- The float percentages and the room-count heuristics of the dialog are not modelled. They use floating point.
- Character classes are ASCII only (`isalpha` also takes the six Norwegian letters the source lists), so Unicode digits and letters are not modelled. With ASCII digits the simple-alpha generator (shots.py:618-658) is unreachable, so its body is not modelled.
- `int()` is modelled on digit strings only, because every call the core makes is guarded by `isdigit`. Signs, whitespace and underscores are not modelled.
- `arbitrary_str_from_room_list` is a stub that does nothing, so it is left out.
- Session.Shot.ReadConfigFrom: after an exception, the model does not say what state remains. The uncaught exception at start-up ends the program, and nothing reads that state.
- Session.Shot.AddHospitalSection: the `{}` stored for a new name is modelled as an empty room list. What this hides: when the hospital dialog is later opened on that record (a deep copy, shots.py:1100) and rooms are added under that name, `.append` on the dict raises AttributeError (shots.py:1507-1508), where the model appends. The callers pass only 'bld' or 'dep' as `sub_type`, so other values are not modelled.
- HospitalModel.AddSection: stores an empty room list `[]` for a new name where shots.py:1625 stores `{}`, so the AttributeError that a later dialog append to that name raises (shots.py:1507-1508) is not modelled.
- HospitalModel.AddSectionAddsOnlyName: its "empty list" is the model's `[]` for the source's `{}`, with the same consequence as for HospitalModel.AddSection.
- HospitalModel.RegisterRoomEffect: room entries and the info/bld/dep keys are kept apart. In the source they share one dict. The keys the read side builds always contain '_', which the keys 'info', 'bld' and 'dep' do not, so they never collide.
- HospitalModel.AddRoomsFromDialog: with no building and no department chosen, the dialog's key is the bare room id (shots.py:1510-1511), and the source writes it into the same dict as 'info', 'bld' and 'dep' (shots.py:1516-1519). A room called "info", "bld" or "dep" (a single word the parser keeps) therefore replaces that field of the record with a room entry. For 'bld' and 'dep', the loop's later appends then go to the old grouping, which is no longer in the record. The model keeps room entries apart from these fields: it adds a room entry under that key and keeps the info and both groupings.
- HospitalModel.AppendRoomIds: the same collision of a bare room id with 'info', 'bld' or 'dep' is not modelled; the rooms map it returns gets an entry under that key instead.
- The per-call stale variables of the complex branch (end-side names left over from an earlier token) are not modelled: two equal sides are modelled as an error.
