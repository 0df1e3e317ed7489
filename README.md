# cconf in Dafny

A model of `cconf`, a single-header C library that keeps a small configuration as a
fixed table of up to 64 key/text entries. It loads a table from a text file of
`key=text` lines and saves it again. It offers first-match lookup, set (update or
append), get-or-set-default, delete with a shift of the later entries, and integer
accessors that store `%d` text and read it back with `strtol`.

The model has four modules:

- `Table` (Table.dfy): bounded C strings (`CString`, `Key`, `Text`), the `Entry`
  record, and the value-level meaning of the table operations on the sequence of
  entries in use. `Find` is the first-match scan. `Lookup` is get, `Assign` is set and
  `Remove` is delete. The lemmas state get-after-set, that other keys are left alone,
  uniqueness, and the duplicate-key and long-key quirks.
- `LineFormat` (LineFormat.dfy): the file format. `ChunkLength` cuts the file the way
  `fgets(buf, 256, file)` does: at most 255 characters, ending after the first
  newline. `CView` is what the C string functions see of the buffer. `ParseLine`
  splits one line at the first `=` and the first newline. `LoadLines` runs the whole
  load loop, and `Serialize` is what the save writes. The lemmas cover
  save-then-load, the 64-read bound, a malformed line aborting the load, an overlong
  line being skipped, and the asymmetric key bound.
- `IntText` (IntText.dfy): `FormatInt` is `snprintf("%d")` for a 32-bit `int`.
  `ParseInt` is `(int)strtol(s, NULL, 0)`: leading white space, a sign, a
  `0x`/`0`/decimal prefix, saturation at the 64-bit `long` bounds, and
  wrap-around to 32 bits. Reading back a formatted integer gives the same integer.
- `Cconf` (Cconf.dfy): the `Config` class holds `values`, an array of 64 slots, and
  `count`. Its methods mirror the library's functions, each proved against the
  `Table` function of the same operation. `LoadConfigFile` is the fgets loop that
  fills a fresh `Config`, proved equal to `LoadFile`. `SaveConfigFile` is the
  fprintf loop, proved equal to `Serialize`.

A file is modelled by its contents. `Option<seq<char>>` is `None` when the path is NULL
or cannot be opened. Characters stand for the bytes of the C strings.

Behaviour of the code that a user may not expect, which the model keeps:

- The load bound counts reads, not entries. A skipped overlong line uses up one of
  the 64 reads (`LineFormat.OverlongSkipped`).
- A load performs no duplicate-key check, so keys are unique only in tables built
  by set from keys of at most 32 characters (`Table.SetKeepsUnique`). Get and delete
  act on the first match (`Table.DeleteFirstOfDuplicates`).
- A set truncates the text to 128 characters and the key to 32. A load accepts only
  keys below 32 and texts below 128 characters. So a 32-character key that set
  stored is dropped on reload (`LineFormat.FullKeyNotReloaded`), and a key longer
  than 32 characters is stored truncated and never found again
  (`Table.LongKeyIsLost`).
- Get-or-set returns the default as given, untruncated, while the table holds the
  truncated copy (`Cconf.Config.GetSetValue`).

## Model

| member | source | states |
|---|---|---|
| Table.Truncate | inc/cconf.h:122-123 | strncpy into an n+1 buffer keeps exactly the first min(\|s\|, n) characters, a prefix of s |
| Table.Find | inc/cconf.h:134-140 | the result is the first index whose key equals the argument; not found exactly when no entry has that key |
| Table.Lookup | inc/cconf.h:130-141 | not found exactly when no entry has the key; otherwise the text of an entry with that key, before which no entry has the key |
| Table.AssignSize | inc/cconf.h:114-125 | setting a present key keeps the count; setting a new key adds exactly one entry |
| Table.AssignExisting | inc/cconf.h:115-120 | setting a present key replaces only that entry's text, truncated to 128 characters; every other entry is unchanged |
| Table.GetAfterSet | inc/cconf.h:114-141 | after set with a key of at most 32 characters, get returns the text truncated to 128 characters |
| Table.SetKeepsOthers | inc/cconf.h:114-125 | set leaves the lookup of every other key (other than the key and its truncation) unchanged |
| Table.SetKeepsUnique | inc/cconf.h:114-125 | set with a key of at most 32 characters keeps keys unique |
| Table.LongKeyIsLost | inc/cconf.h:122 | a new key over 32 characters is stored truncated: get then reports not found, and a second set appends a duplicate entry |
| Table.RemoveSize | inc/cconf.h:208-217 | delete of a present key removes exactly one entry; an absent key leaves the size unchanged |
| Table.RemoveShifts | inc/cconf.h:211-212 | delete keeps the entries before the match and moves every later entry one slot down, in order |
| Table.DeleteKeepsOthers | inc/cconf.h:208-217 | delete leaves the lookup of every other key unchanged |
| Table.DeleteRemovesKey | inc/cconf.h:208-217 | with unique keys, a deleted key is no longer found and keys stay unique |
| Table.DeleteFirstOfDuplicates | inc/cconf.h:209-213 | with a duplicate key, delete removes only the first match, and get then finds the next occurrence |
| LineFormat.FirstIndex | inc/cconf.h:66-67 | strpbrk: the first position of the character, or the length when it is absent |
| LineFormat.CView | inc/cconf.h:66-67 | the string functions see the buffer up to its first NUL |
| LineFormat.ChunkLength | inc/cconf.h:60-61 | one fgets consumes at most 255 characters, with no newline before its last character, and stops short of 255 only at a newline or at the end of the file |
| LineFormat.ParseLine | inc/cconf.h:66-85 | a line is malformed exactly when it lacks `=` or a newline; a kept line is exactly key + `=` + text + newline, with a savable entry |
| LineFormat.ParseFields | inc/cconf.h:66-85 | a line key=text with no `=` in the key and no newline in either field is kept as that entry when the key has under 32 and the text under 128 characters, and skipped otherwise |
| LineFormat.LoadLines | inc/cconf.h:61-87 | a completed load has at most as many entries as reads left, all of them savable |
| LineFormat.LoadLine | inc/cconf.h:61-87 | a load from the next read on keeps at most as many entries as reads left, all of them savable (the outcome of the read itself is stated by Cconf.LoadTurn) |
| LineFormat.SerializeSnoc | inc/cconf.h:98-100 | saving one more entry appends exactly its `key=text` line |
| LineFormat.LoadAfterSaved | inc/cconf.h:61-86 | loading a saved prefix of savable entries gives those entries, in order, ahead of what the rest of the file gives with the reads left |
| LineFormat.SaveLoadRoundTrip | inc/cconf.h:53-103 | loading the saved file of at most 64 savable entries gives the same entries back |
| LineFormat.LoadStopsAtCapacity | inc/cconf.h:61 | of a saved file with more than 64 entries, only the first 64 come back |
| LineFormat.LoadSaveLoad | inc/cconf.h:53-103 | saving a loaded table and loading it again gives the same table |
| LineFormat.MalformedAborts | inc/cconf.h:68-71 | a malformed line within the first 64 reads makes the whole load fail, discarding the entries before it |
| LineFormat.OverlongSkipped | inc/cconf.h:76-83 | a line with a key of 32 or more or a text of 128 or more characters yields nothing, uses up one read, and loading goes on |
| LineFormat.LoadSkippedLine | inc/cconf.h:76-83 | a skipped line costs one read and leaves the rest of the load as it was |
| LineFormat.LongLineAborts | inc/cconf.h:60-71 | a line with no newline in its first 255 characters is read without one and aborts the load |
| LineFormat.FullKeyNotReloaded | inc/cconf.h:76 | a saved entry whose key has exactly 32 characters is dropped on reload |
| LineFormat.MalformedLines | inc/cconf.h:62-68 | an empty line, a line without `=`, and a last line without newline are all malformed |
| IntText.FormatInt | inc/cconf.h:161 | "%d" of an int is 1 to 11 characters with no NUL, so it fits the text buffer |
| IntText.DigitRun | inc/cconf.h:167 | strtol reads the longest prefix of digits valid in the base |
| IntText.SkipSpace | inc/cconf.h:167 | strtol drops a prefix made only of white space and keeps the rest, which does not start with white space |
| IntText.ClampLong | inc/cconf.h:167 | strtol saturates at the bounds of a 64-bit long and returns values in range as they are |
| IntText.WrapInt | inc/cconf.h:167 | the int cast is congruent modulo 2^32 and the identity on int values |
| IntText.ParseFormatted | inc/cconf.h:159-168 | strtol of the "%d" text of an int gives that int back |
| IntText.StrtolFormatted | inc/cconf.h:161-167 | strtol with base 0 reads the "%d" text of an int as that int; "0" goes through the octal branch and still reads as 0 |
| IntText.NonNumericIsZero | inc/cconf.h:165-167 | text that, after white space and a sign, does not start with a digit reads as 0 |
| Cconf.Config.constructor | inc/cconf.h:54-55 | a fresh configuration owns 64 slots and has no entries in use |
| Cconf.Config.IndexOf | inc/cconf.h:134-135 | the strcmp scan returns the first slot in use holding the key, or none |
| Cconf.Config.GetValue | inc/cconf.h:130-141 | get returns the first match's text or not found, and changes nothing |
| Cconf.Config.SetValue | inc/cconf.h:114-125 | the entries in use become those of set: the first match's text is overwritten with the truncated text, or the truncated key and text are appended |
| Cconf.Config.Append | inc/cconf.h:84-86 | the next free slot receives the entry and count grows by one; the earlier entries stay |
| Cconf.Config.GetSetValue | inc/cconf.h:146-153 | on a hit, the stored text is returned and nothing changes; on a miss, the default is set and returned as given |
| Cconf.Config.SetValueInt | inc/cconf.h:159-163 | stores the "%d" text of the value as set does |
| Cconf.Config.GetValueInt | inc/cconf.h:165-168 | returns the stored text read by strtol and cast to int, or 0 when the key is missing |
| Cconf.Config.GetSetValueInt | inc/cconf.h:170-177 | on a hit, the parsed stored text is returned and nothing changes; on a miss, the default is stored as "%d" text and returned |
| Cconf.Config.DeleteValue | inc/cconf.h:207-217 | returns 0 when the key was present and 1 otherwise; the entries in use become those of delete |
| Cconf.Config.MoveDown | inc/cconf.h:211 | the slots before the match keep their entries; each later entry in use moves one slot down |
| Cconf.ShiftedIsRemoved | inc/cconf.h:211-212 | the moved-down slots are exactly the table with the first match removed |
| Cconf.IntOf | inc/cconf.h:165-167 | a missing key reads as 0 |
| Cconf.LoadConfigFile | inc/cconf.h:53-93 | a malformed file gives no configuration; otherwise a fresh configuration whose entries in use are exactly those of the load |
| Cconf.LoadTurn | inc/cconf.h:61-86 | one pass of the fgets loop aborts, skips, or appends the parsed entry to the entries loaded so far |
| Cconf.SaveConfigFile | inc/cconf.h:95-103 | the text written is exactly the `key=text` lines of the entries in use, in slot order |
| Cconf.GetSetThenGet | inc/cconf.h:146-153 | after get-or-set misses, a get with a key of at most 32 characters returns the default truncated to 128 characters, and the default itself when it fits |
| Cconf.IntGetAfterSet | inc/cconf.h:159-168 | getting an int after setting it, with a key of at most 32 characters, returns the int |
| Cconf.IntOfNonNumeric | inc/cconf.h:165-167 | a stored text that is not a number reads as 0, like a missing key |

## Left out

- Float accessors (inc/cconf.h:183-201) are left out: `%g` formatting and `strtof` are floating point.
- `CConf_UnloadConfig` and the freeing of memory (inc/cconf.h:105-108) are left out. On a malformed line the source frees the configuration and still returns it. The model returns `None` on that path.
- File handling is left out: `fopen`, `fclose`, and the silent no-op when a file cannot be opened for writing. The file is its contents, or `None` when it cannot be read. The fgets reads are modelled by `ChunkLength`.
- The warning and error `printf` calls are left out; they have no effect on the table.
- `Cconf.Config.GetValue` returns the text as a value. The static buffer that the source hands out is not modelled, so neither is its "expires on next use" aliasing.
- `Cconf.Config.MoveDown`: shifts the `count - i - 1` entries after the match. The source's memmove copies `count - i` entries, which reads one slot past the last entry in use, and past the array when the table is full.
- `Cconf.Config.GetValueInt`: a missing key gives 0, as the comment at inc/cconf.h:165 claims. The source passes NULL to strtol there, which is undefined behaviour.
- `IntText.ParseInt` assumes a 64-bit `long` and a two's-complement, wrapping `int` cast. strtol's `errno` and end pointer are not modelled.
- `Cconf.Config.SetValue`, `GetSetValue`, `SetValueInt` and `GetSetValueInt` require a free slot when the key is new. The source writes past the array in that case.
- Characters stand for bytes. There is no model of encodings, locales other than "C", or of `isspace` beyond the six C-locale white-space characters.
- The compile-time switch `CCONF_SKIP_EMPTY_LINES` (inc/cconf.h:8) is modelled at its value `false` only.
