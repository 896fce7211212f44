# SpeedLoad hash manager and CDN structures in Dafny

This project models two pieces of the LibSpeedLoad download client.

- **`HashManager`** (`hash_manager.dfy`) models the hash manager. It keeps an in-memory map from a file's relative path to its base64 digest. It loads that map from one hash file, `HashFile{id}.hsh`, and saves it back.
  - The file system is a value `Disk`: a map from file name to the stored `HashList`. A name that is absent is a file that does not exist.
  - A manager is the immutable record `Store(id, hashMap, disk)`. Each operation is a function or method from store to store.
  - The two exceptions thrown by the C# `HashManager` become `HashError` values: `MissingKey(path)` and `Integrity(path, expected, actual)`. Reading an absent hash file gives `ManifestMissing(fileName)`. `Load` returns the manager's new state together with its outcome. The map is cleared before the read, so it is empty after a failed read too.
  - `Has` and `Exists` are plain predicates, used in the other contracts.
- **`CdnStructures`** (`cdn_structures.dfy`) models the static-CDN records.
  - `FileInfo` is a section-file record. `uint` fields are the newtype `u32` and the `int` field is `i32`. The newtypes carry the field widths, and `i32` admits the sentinel -1 for `CompressedLength`.
  - `FileInfo` has the two derived paths, `FullPath` and `OriginalFullPath`.
  - The `DownloadData` flags are a datatype. Each flag has a one-bit `bv32` value. `Combine` ORs a set of flags together and `Decode` reads one back.
- **`Wrappers`** (`wrappers.dfy`) holds `Option`, `Result` and `Outcome`.

`Save` chooses each key with `:|`, so the model fixes no emission order. The .NET dictionary's enumeration order is unspecified too. Everything proved about `Save` therefore holds for every order. `Load` is a left fold over the stored entries, as in the C# `foreach`, where each entry overwrites its path. `LastHash` is an independent reference for it: it scans from the end for the last entry that names a path.

In the code, `All` is the bit 1 like any other flag. It is not the union of the other flags, and the model keeps it that way.

## Model

| member | source | states |
|---|---|---|
| HashManager.HashFileName | LibSpeedLoad/Core/Download/HashManager.cs:40-55 | the file name is "HashFile", then the id, then ".hsh": prefix, suffix, length, and the id recovered from the middle |
| HashManager.HashFileNameInjective | LibSpeedLoad/Core/Download/HashManager.cs:40-55 | two managers use the same hash file name exactly when their ids are equal |
| HashManager.Init | LibSpeedLoad/Core/Download/HashManager.cs:61-65 | a new manager keeps its id and the disk, and `Has` is false for every path |
| HashManager.CreateIfMissing | LibSpeedLoad/Core/Download/HashManager.cs:70-79 | afterwards the file exists; a file that existed is unchanged; a file that was absent now holds zero entries; no other file changes and the map is untouched |
| HashManager.CreateIfMissingIdempotent | LibSpeedLoad/Core/Download/HashManager.cs:70-79 | calling CreateIfMissing a second time changes nothing |
| HashManager.LoadEntries | LibSpeedLoad/Core/Download/HashManager.cs:90-93 | folding the entries adds exactly the paths the entries name to the keys already present |
| HashManager.LastHash | LibSpeedLoad/Core/Download/HashManager.cs:90-93 | the reference "last entry for a path" reading is absent exactly when no entry names the path |
| HashManager.LoadEntriesSnoc | LibSpeedLoad/Core/Download/HashManager.cs:90-93 | folding one more entry is the same as overwriting that entry's path in the result so far |
| HashManager.LoadEntriesLastWins | LibSpeedLoad/Core/Download/HashManager.cs:90-93 | after the fold, a path holds the hash of its last entry, and a path no entry names keeps its prior value or absence |
| HashManager.LoadFromEmptyLastWins | LibSpeedLoad/Core/Download/HashManager.cs:86-93 | starting from an empty map, every loaded path maps to the hash of its last entry |
| HashManager.Load | LibSpeedLoad/Core/Download/HashManager.cs:84-94 | fails with ManifestMissing exactly when the hash file is absent, and then leaves the map empty; otherwise the keys are exactly the entries' paths, each with its last entry's hash; the id and disk are unchanged either way |
| HashManager.LoadDiscardsPriorState | LibSpeedLoad/Core/Download/HashManager.cs:86 | the result of Load does not depend on the map held before it |
| HashManager.Has | LibSpeedLoad/Core/Download/HashManager.cs:101-104 | a path is known exactly when the map has it as a key; the contracts of Init, Put, Get, Check, Load and Reset are stated through it |
| HashManager.Exists | LibSpeedLoad/Core/Download/HashManager.cs:171 | the hash file exists exactly when its name is on the disk; the contracts of CreateIfMissing, Load, Save and Reset are stated through it |
| HashManager.Get | LibSpeedLoad/Core/Download/HashManager.cs:101-119 | fails with MissingKey(path) exactly when Has(path) is false; otherwise returns the stored digest |
| HashManager.Put | LibSpeedLoad/Core/Download/HashManager.cs:126-129 | afterwards Has(path) holds and Get returns the new digest; Get on every other key is unchanged; the key set gains only the path; id and disk are unchanged |
| HashManager.Check | LibSpeedLoad/Core/Download/HashManager.cs:136-147 | three outcomes: MissingKey(path) if absent; Integrity(path, stored, given), in that order, if the digests differ; Pass exactly when the stored digest equals the given one |
| HashManager.CheckAgreesWithGet | LibSpeedLoad/Core/Download/HashManager.cs:111-147 | Check passes exactly when Get returns the given digest, and both report the same MissingKey error |
| HashManager.CheckAfterPut | LibSpeedLoad/Core/Download/HashManager.cs:126-147 | after Put(p, d), Check(p, d) passes and Check(p, d') with d' different from d fails with Integrity(p, d, d') |
| HashManager.Save | LibSpeedLoad/Core/Download/HashManager.cs:152-169 | for any emission order, the hash file then lists each pair of the map exactly once, so it has no duplicate paths and as many entries as the map has keys; no other file changes and the map is untouched |
| HashManager.LastHashUniform | LibSpeedLoad/Core/Download/HashManager.cs:90-93 | if every entry naming a path carries the same hash, the last one carries that hash |
| HashManager.LoadRepresented | LibSpeedLoad/Core/Download/HashManager.cs:84-169 | folding any list that lists a map's pairs once each, in any order, rebuilds exactly that map |
| HashManager.SaveLoadRoundTrip | LibSpeedLoad/Core/Download/HashManager.cs:84-169 | once the hash file holds what Save writes, Load by any manager with the same id and disk reproduces the saved path-to-digest map |
| HashManager.Reset | LibSpeedLoad/Core/Download/HashManager.cs:171-179 | afterwards Has is false for every path; id and disk are unchanged, so Exists is unchanged |
| HashManager.BaseSession | LibSpeedLoad/Core/Download/HashManager.cs:70-169 | with id "Base" and no hash file, a session of CreateIfMissing, Load, Put("data/a.bin", "Zm9v") and Save, followed by Load in a new manager, makes Get return "Zm9v" |
| CdnStructures.JoinPath | LibSpeedLoad/Core/Download/Sources/StaticCDN/CDNStructures.cs:22-23 | the joined path starts with the directory, then has a '/', then ends with the file name; its length is the sum of both lengths plus one |
| CdnStructures.JoinPathInjective | LibSpeedLoad/Core/Download/Sources/StaticCDN/CDNStructures.cs:22-23 | for a fixed file name, two joined paths are equal exactly when their directories are |
| CdnStructures.JoinPathAmbiguous | LibSpeedLoad/Core/Download/Sources/StaticCDN/CDNStructures.cs:22 | different directory and file pairs can give the same full path ("a/b" with "c", and "a" with "b/c") |
| CdnStructures.FileInfo.FullPath | LibSpeedLoad/Core/Download/Sources/StaticCDN/CDNStructures.cs:22 | FullPath has Path as its prefix, then '/', then File as its suffix; its length is \|Path\| + 1 + \|File\| |
| CdnStructures.FileInfo.OriginalFullPath | LibSpeedLoad/Core/Download/Sources/StaticCDN/CDNStructures.cs:23 | OriginalFullPath has OriginalPath as its prefix, then '/', then File as its suffix; its length is \|OriginalPath\| + 1 + \|File\| |
| CdnStructures.FullPathsAgree | LibSpeedLoad/Core/Download/Sources/StaticCDN/CDNStructures.cs:22-23 | FullPath equals OriginalFullPath exactly when Path equals OriginalPath |
| CdnStructures.FieldWidths | LibSpeedLoad/Core/Download/Sources/StaticCDN/CDNStructures.cs:15-20 | Section, Offset and Length are unsigned 32-bit; CompressedLength is signed 32-bit and can hold -1 |
| CdnStructures.Bit | LibSpeedLoad/Core/Download/Sources/StaticCDN/CDNStructures.cs:26-34 | every flag's value is a single bit within the five known bits |
| CdnStructures.BitsDisjoint | LibSpeedLoad/Core/Download/Sources/StaticCDN/CDNStructures.cs:26-34 | two flags share a bit exactly when they are the same flag |
| CdnStructures.CombineFrom | LibSpeedLoad/Core/Download/Sources/StaticCDN/CDNStructures.cs:26-34 | ORing the flags from a given position onward sets exactly the bits of those flags and no bit outside the five known bits |
| CdnStructures.Combine | LibSpeedLoad/Core/Download/Sources/StaticCDN/CDNStructures.cs:26-34 | a flag's bit is set in the OR of a set of flags exactly when the flag is in the set; no other bit is set |
| CdnStructures.HasFlagCombine | LibSpeedLoad/Core/Download/Sources/StaticCDN/CDNStructures.cs:26-34 | HasFlag holds of a combination exactly when the flag was combined into it |
| CdnStructures.DecodeCombine | LibSpeedLoad/Core/Download/Sources/StaticCDN/CDNStructures.cs:26-34 | decoding a combination gives back exactly the set of flags combined |
| CdnStructures.CombineDecode | LibSpeedLoad/Core/Download/Sources/StaticCDN/CDNStructures.cs:26-34 | combining the decoded flags of any 32-bit value gives back the value's five flag bits |

## Left out

- JSON encoding and file I/O: the hash file is the abstract `HashList` value stored under its name in `Disk`. The JSON helpers are not part of this model. Their failure on an unreadable or malformed file is not modelled, and only an absent file is an error of `Load`.
- `Disk` compares file names exactly, with no case folding and no path normalisation. On a case-insensitive file system, ids such as "Base" and "base" name one file, and an id holding "/.." can name another manager's file. The model treats such names as different files, and its "no other file changes" facts rely on that.
- Null strings: C# strings may be null, while the model's strings never are. The behaviour of a null path, id or digest is not modelled.
- Exception classes and message text: only the tagged error and its fields are kept.
- `CDNDownloadOptions` is a bag of settings with no behaviour, so it is not modelled.
- Byte-range extraction by `Offset` and `Length` is not modelled. So are decompression, digest computation and fetching `section{N}.dat`, because no code in the modelled files performs them. `Offset`, `Length` and `CompressedLength` are carried as fields only.
- `Revision` and `Hash` of `FileInfo` are carried as fields, with no behaviour.
