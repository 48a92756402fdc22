# libsign signing core in Dafny

This project models the core of libsign. libsign signs files through
pluggable *signaturelets*: shared libraries that register a descriptor
(an id, a digest algorithm, a `sign()` callback and a list of suffix
patterns naming the signature files they write). The model covers five
parts of it:

- **`Signaturelet`** (`signaturelet.dfy`) — the signaturelet registry.
  - It is a `Registry` class. Its fields are the registered entries (a `seq`, in insertion order), a 16-slot handle `array`, the handle count and the set of library paths the process has loaded.
  - Methods cover registration with its sanity check, unregistration, loading and the handle table. Loading searches the signaturelet directory first, then the `LD_LIBRARY_PATH` directories.
  - Pure functions cover first-match lookup, suffix-pattern resolution and `signaturelet_sign`'s argument checks and delegation.
- **`Signlet`** (`signlet.dfy`) — the batch signing orchestrator.
  - `parse_request` and its check order.
  - The sign loop, the output-name derivation and the write loop.
  - The whole `signlet_request` pipeline over a `Registry`.
  - Each loop is a method proved equal to a specification function. The properties are lemmas about those functions.
- **`Bcll`** (`bcll.dfy`) — the intrusive circular doubly-linked list that stores the registry.
  - It is a `Link` class with `next`/`prev` fields.
  - Its shape is stated by a ghost predicate `IsRing(head, xs)`, which ties the pointer ring to the sequence of links after the head.
- **`Utils`** (`utils.dfy`) — helpers from `src/lib/utils.c`.
  - The delimiter splitter, proved against a recursive `Split`.
  - The `mkdir -p` prefix walk, with `mkdir` as an oracle.
  - `strtok` tokenisation.
  - The contracts of `file_exists`, `load_file` and `save_file`.
- **`SELoader`** (`seloader.dfy`) — the packed record layout of the SELoader signaturelet: the 25-byte header, the 16-byte tag record, tag identifiers, hash-algorithm codes and flag bits. It is written as fixed-offset little-endian encoders and decoders with round-trip lemmas.

`Base` (`base.dfy`) holds `Option`, which stands for a nullable pointer, and the `byte` type.

Everything outside the process becomes a function-typed parameter:
- `dlopen` and `getenv` go in `Signaturelet.Platform`;
- key and certificate loading, `access`, file contents, the naming-pattern lookup, `fopen`/`fwrite` and the descriptors' `sign()` go in `Signlet.Env`.

A library's constructor registering its descriptor is modelled inside `Registry.Load`, as the `Module` value that `dlopen` yields. The constructor runs only when a library is opened for the first time: `dlopen` of a library that is already loaded returns the existing handle.

## Model

| member | source | states |
|---|---|---|
| Signaturelet.SanityCheck | src/lib/signaturelet.c:223-259 | a descriptor is refused iff it is NULL, has no or an empty id, no `sign`, an unsupported digest algorithm, or a NULL, empty or invalid suffix-pattern list; NULL is reported as such, and an invalid-pattern report points at a pattern that fails the check |
| Signaturelet.FirstInvalidPattern | src/lib/signaturelet.c:166-221 | the walk stops at the first pattern with a zero flag, with no suffix, or with a suffix that is not `+` followed by at least one character; none is reported iff every pattern passes |
| Signaturelet.SanityCheckOrder | src/lib/signaturelet.c:228-246 | the id is checked before `sign`, and `sign` before the digest algorithm |
| Signaturelet.Find | src/lib/signaturelet.c:65-76 | the position of the first entry, in insertion order, whose id matches; none iff no entry matches |
| Signaturelet.FindAppend | src/lib/signaturelet.c:65-76 | appending an entry never hides an earlier entry with the same id; the new entry is found only when no earlier one matches |
| Signaturelet.FirstApplicable | src/lib/signaturelet.c:150-161 | the first pattern whose applicable branch (set branch when `flag & flags` is non-zero, unset branch otherwise) is non-NULL; none iff every applicable branch is NULL |
| Signaturelet.ResolveSuffix | src/lib/signaturelet.c:138-164 | an unknown id fails; otherwise the result is the first non-NULL applicable branch of that entry's patterns, or success with the output untouched when there is none |
| Signaturelet.ResolvedSuffixIsValid | src/lib/signaturelet.c:138-221 | because registration checks every pattern, a resolved suffix is always `+` followed by a non-empty suffix |
| Signaturelet.Sign | src/lib/signaturelet.c:311-335 | a NULL id, key, certificate list, `out_sig` or `out_sig_size`, data missing for a non-zero size, or an unknown id fails; otherwise the registered descriptor's `sign` gets every argument unchanged and its result is returned |
| Signaturelet.SignRejectionIgnoresProducer | src/lib/signaturelet.c:317-331 | a rejected call gives the same result whatever the producers would do, so no producer is reached |
| Signaturelet.PushHandle | src/lib/signaturelet.c:54-63 | a handle is appended while the table holds fewer than 16; a full table is returned unchanged; the table never exceeds 16 |
| Signaturelet.Registered | src/lib/signaturelet.c:261-291 | registration adds exactly one entry iff the descriptor passes the sanity check and `dlopen(NULL)` succeeds, and nothing otherwise |
| Signaturelet.Unregistered | src/lib/signaturelet.c:293-309 | an unknown id leaves the list unchanged; otherwise the list is the entries before the first match followed by those after it |
| Signaturelet.UnregisterKeepsOthers | src/lib/signaturelet.c:298-305 | unregistering removes the first matching entry and keeps every other entry in order |
| Signaturelet.RegisterThenUnregister | src/lib/signaturelet.c:261-309 | registering a descriptor with a new id and unregistering that id restores the list |
| Signaturelet.Candidates | src/lib/signaturelet.c:85-123 | the paths tried: `SIGNATURELET_DIR/<id>.siglet` first, then `<dir>/signaturelet/<id>.siglet` for every strtok token of `LD_LIBRARY_PATH`, in order; only the first when the variable is unset |
| Signaturelet.FirstOpenable | src/lib/signaturelet.c:92-123 | the search stops at the first candidate `dlopen` opens; none iff none opens |
| Signaturelet.SearchDirs | src/lib/signaturelet.c:109-123 | the strtok loop hands the directory candidates to `dlopen` in order, stops at the first that opens, and returns its module and path |
| Signaturelet.SearchedSkip | src/lib/signaturelet.c:95-123 | when the signaturelet-directory path does not open, the whole search ends where the LD_LIBRARY_PATH search ends, with that path added in front of the attempts |
| Signaturelet.OpenFirst | src/lib/signaturelet.c:85-129 | the paths attempted are exactly the candidates up to and including the first that opens, or all of them when none opens |
| Signaturelet.Registry.constructor | src/lib/signaturelet.c:50-52 | the registry starts with no entries and an empty 16-slot handle table |
| Signaturelet.Registry.AddHandle | src/lib/signaturelet.c:54-63 | the table's contents become `PushHandle` of the old contents; the entries are unchanged |
| Signaturelet.Registry.Register | src/lib/signaturelet.c:261-291 | succeeds iff the descriptor is acceptable and `dlopen(NULL)` succeeds; the list becomes the old list plus that one entry at the tail; duplicate ids are accepted |
| Signaturelet.Registry.Unregister | src/lib/signaturelet.c:293-309 | succeeds iff the id is registered; the list becomes the list without its first match |
| Signaturelet.EntriesAfterLoad | src/lib/signaturelet.c:78-136 | loading keeps every existing entry as a prefix and adds at most one; a registered id or a search in which nothing opens adds nothing, and an entry is added only when the opened library was not loaded before |
| Signaturelet.HandlesAfterLoad | src/lib/signaturelet.c:78-136 | the handle table stays within 16 and is unchanged for a registered id or a failed search |
| Signaturelet.LoadedAfterLoad | src/lib/signaturelet.c:78-136 | the set of loaded libraries only grows, and after a search that opens a library it holds that library's path; unregistering never removes a path |
| Signaturelet.ReloadAfterUnregister | src/lib/signaturelet.c:78-309 | loading an id, unregistering it and loading it again leaves the id unknown: the library is still loaded, so the second load registers nothing |
| Signaturelet.Registry.Load | src/lib/signaturelet.c:78-136 | a registered id succeeds with no `dlopen`; otherwise it fails when no candidate opens, and succeeds when one does; the entries, handle table and loaded set become `EntriesAfterLoad`, `HandlesAfterLoad` and `LoadedAfterLoad` of the old state, so a library's constructor registration is applied only on its first load |
| Signlet.ParseRequest | src/lib/signlet.c:43-143 | the counting, output and certificate loops yield exactly `Parse`: rejection in the order NULL request, missing id, both content-attached and detached flags set, missing or empty file list, missing key, key that does not load, first missing file, short output list, first certificate that does not load; success otherwise |
| Signlet.ParseAccepted | src/lib/signlet.c:82-140 | an accepted request has `min(n, 256)` counted files, all readable; the cap warning is issued iff the list holds 256 files or more; an output list covers every counted file; every certificate loaded and all are kept; the other fields are copied from the request |
| Signlet.KeyProbedBeforeFiles | src/lib/signlet.c:70-91 | a missing or unloadable key is reported as such, whatever the file system holds |
| Signlet.FilesBeyondCapIgnored | src/lib/signlet.c:85-98 | files after the 256th are never checked: file systems agreeing on the first 256 inputs give the same result |
| Signlet.ParseAsWritten | src/lib/signlet.c:100-113 | as written, a short output list faults while it is reported, and every other request gets the same result as `Parse` |
| Signlet.ParseAsWrittenFaults | src/lib/signlet.c:104-108 | one readable input with an empty output list reaches that fault |
| Signlet.OutputNames | src/lib/signlet.c:178-230 | the list exists iff the naming lookup succeeds and either an explicit output list is given or the pattern's operator is `+`; output i is then the explicit name or input i followed by the pattern without its operator |
| Signlet.DerivedNamesRecoverInputs | src/lib/signlet.c:204-215 | a derived name minus the suffix is its input, so distinct inputs get distinct outputs |
| Signlet.BuildOutputFileList | src/lib/signlet.c:178-230 | filling the table yields exactly `OutputNames`; on failure the entries built so far are released and NULL is returned |
| Signlet.SignFile | src/lib/signlet.c:150-176 | a file that does not load fails; otherwise `signaturelet_sign` receives the file bytes and their size, the context's key, certificates, certificate count and flags |
| Signlet.SignPrefix | src/lib/signlet.c:270-280 | either every input up to n signs, and the signatures are theirs in order, or the loop stops at the first failing input with its code, every earlier input having signed |
| Signlet.SignPrefixStaysFailed | src/lib/signlet.c:270-276 | after the first failing input the loop is over: signing a longer prefix gives the same failure |
| Signlet.SignFiles | src/lib/signlet.c:259-280 | the slot-filling loop yields `SignPrefix`'s outcome: the failing code, or success with every signature |
| Signlet.WritePrefix | src/lib/signlet.c:287-300 | the outputs written are the first names in order, each saved; success iff all were written; a failure stops at the first output whose save fails |
| Signlet.WriteFiles | src/lib/signlet.c:287-302 | the write loop yields `WritePrefix`'s outcome |
| Signlet.WritePrefixStops | src/lib/signlet.c:291-296 | after a failed save no later output is attempted |
| Signlet.CompleteOutcome | src/lib/signlet.c:268-314 | a signing failure writes nothing and fails; a naming failure writes nothing and fails; success iff every input signed and every output was written in order; a failed save at output k leaves exactly outputs 0..k-1 written |
| Signlet.CompleteAsWritten | src/lib/signlet.c:268-300 | as written, when every input signs but the output list cannot be built, the result is success with nothing written; whenever the list can be built, it agrees with the corrected pipeline |
| Signlet.NamingFailureReportsSuccess | src/lib/signlet.c:268-285 | when every input signs but the naming lookup fails, the code as written returns success with nothing written; the corrected pipeline returns failure |
| Signlet.SignletRequest | src/lib/signlet.c:243-315 | the corrected pipeline: a rejected request (including a short output list) returns failure with nothing written and the registry unchanged; for an accepted request the registry becomes the post-load state of `Registry.Load`; a failed load returns failure with nothing written; otherwise the result and the files written are `Complete` over the entries after loading, where a naming failure gives EXIT_FAILURE |
| Bcll.Link.constructor | src/lib/bcll.h:38-41 | a declared head points to itself both ways |
| Bcll.RingIsDoublyLinked | src/lib/bcll.h:32-36 | in a ring every node's `next.prev` and `prev.next` are the node itself, and both neighbours are in the ring |
| Bcll.Init | src/lib/bcll.h:43-47 | the head becomes the empty ring |
| Bcll.InsertAfter | src/lib/bcll.h:49-58 | the entry is linked in right after the given node; the others keep their order |
| Bcll.Add | src/lib/bcll.h:60-64 | the entry becomes the first element; the others keep their order |
| Bcll.AddTail | src/lib/bcll.h:66-70 | the entry becomes the last element; the others keep their order |
| Bcll.Del | src/lib/bcll.h:72-77 | the ring is the old ring without the entry, order preserved; the entry's own `next`/`prev` keep their old values |
| Bcll.DelInit | src/lib/bcll.h:79-84 | the ring without the entry, and the entry is a self-linked empty ring |
| Bcll.ForEachLink | src/lib/bcll.h:86-89 | the traversal visits exactly the ring's elements in `next` order, starting after the head |
| Bcll.RingNeighbours | src/lib/bcll.h:86-96 | element k's `prev` and `next` are its ring neighbours, or the head at either end |
| Bcll.KeptMembers | src/lib/bcll.h:91-96 | the links kept after removing a set are exactly the visited links outside it |
| Bcll.RemoveIfDoomed | src/lib/bcll.h:72-84 | one body run of a safe traversal: a doomed link is unlinked and left self-linked, any other link is left in place |
| Bcll.SafeRound | src/lib/bcll.h:91-96 | one round of the safe traversal keeps the walk invariant with its successor fetched before the body |
| Bcll.SafeWalk | src/lib/bcll.h:91-96 | the loop with the successor fetched before the body visits every original element in order and ends in the walk state with everything visited |
| Bcll.SafeWalkSuccessor | src/lib/bcll.h:91-96 | at every step the successor fetched before the body is the next original element, or the head |
| Bcll.ForEachLinkSafeRemove | src/lib/bcll.h:91-96 | the safe traversal visits every original element in order even when the body deletes the current one; afterwards the ring holds the kept elements in order and each deleted one is self-linked |
| Utils.SplitString | src/lib/utils.c:47-84 | the token list and its count are `Split(input, delim)`; empty input gives no tokens; the delimiter must be non-empty |
| Utils.SplitStep | src/lib/utils.c:54-80 | one round of the loop: the token runs to the first delimiter or to the end, and scanning resumes past that delimiter |
| Utils.SplitTokensHaveNoDelimiter | src/lib/utils.c:54-81 | no token contains the delimiter |
| Utils.SplitJoin | src/lib/utils.c:54-81 | joining the tokens with the delimiter gives the input, or the input without one trailing delimiter; exactly the input when it does not end in the delimiter |
| Utils.SplitLeadingDelimiter | src/lib/utils.c:55-63 | a leading delimiter produces an empty first token |
| Utils.StrtokIsSplitWithoutEmpties | src/lib/signaturelet.c:109-111 | the tokens `strtok` yields for one separator are the split tokens with the empty ones dropped |
| Utils.MkdirTargetsArePoints | src/lib/utils.c:93-103 | every directory created is a non-empty prefix ending just after a run of `/` or at the end of the path |
| Utils.MkdirTargetsIncreasing | src/lib/utils.c:93-105 | the prefixes are created in strictly increasing length |
| Utils.MkdirTargetsComplete | src/lib/utils.c:93-105 | every such prefix is created |
| Utils.MkdirPlanEndsWithPath | src/lib/utils.c:93-105 | for a non-empty path the last `mkdir` is on the full path |
| Utils.Mkdir | src/lib/utils.c:86-108 | the calls made are a prefix of the plan; the result is 0 after the whole plan with no failure other than "exists", and -1 right after the first other failure |
| Utils.FileExistsAsWritten | src/lib/utils.c:110-117 | as written, a NULL path counts as existing; otherwise a path exists iff it is readable |
| Utils.FileExists | src/lib/utils.c:110-117 | the corrected check: a path exists iff it is non-NULL and readable |
| Utils.FileExistsNullDiscrepancy | src/lib/utils.c:113-114 | the two differ on NULL and agree on every real path |
| Utils.LoadFile | src/lib/utils.c:119-180 | loading succeeds iff the path is non-NULL and non-empty, both output pointers are given and the file opens with non-zero size; the bytes returned are the file's |
| Utils.SaveFile | src/lib/utils.c:182-203 | saving succeeds iff the file opens for writing and the single `fwrite` stores its item, which needs a non-empty buffer |
| SELoader.U32RoundTrip | src/signaturelet/SELoader.h:42-59 | decoding an encoded `uint32_t` gives it back |
| SELoader.U32Canonical | src/signaturelet/SELoader.h:42-59 | four bytes re-encode to themselves |
| SELoader.EncodeHeader | src/signaturelet/SELoader.h:34-50 | the packed header is 25 bytes with Magic at 0, Revision at 4, HeaderSize at 5, TagDirectorySize at 9, NumberOfTag at 13, PayloadSize at 17 and Flags at 21 |
| SELoader.DecodeHeader | src/signaturelet/SELoader.h:42-50 | a header can be read iff at least 25 bytes are present |
| SELoader.HeaderRoundTrip | src/signaturelet/SELoader.h:42-50 | decoding an encoded header, whatever follows it, returns every field unchanged |
| SELoader.HeaderCanonical | src/signaturelet/SELoader.h:42-50 | every 25 bytes re-encode to themselves |
| SELoader.MagicIsSels | src/signaturelet/SELoader.h:36-43 | the header starts with the ASCII bytes `S`,`E`,`L`,`S` iff its magic is their little-endian reading |
| SELoader.EncodeTag | src/signaturelet/SELoader.h:52-59 | the packed tag record is 16 bytes with Tag at 0, Revision at 4, Reserved at 5, Flags at 6, DataOffset at 8 and DataSize at 12 |
| SELoader.DecodeTag | src/signaturelet/SELoader.h:52-59 | a tag record can be read iff at least 16 bytes are present |
| SELoader.TagRoundTrip | src/signaturelet/SELoader.h:52-59 | decoding an encoded tag record returns every field unchanged |
| SELoader.TagCanonical | src/signaturelet/SELoader.h:52-59 | every 16 bytes re-encode to themselves |
| SELoader.TagIdsDistinct | src/signaturelet/SELoader.h:62-105 | the tag identifiers 1, 2, 3, 9, 10, 11 and 12 are pairwise distinct |
| SELoader.HashCodeBijective | src/signaturelet/SELoader.h:64-71 | the hash-algorithm codes 0..5 and the algorithms correspond one to one |
| SELoader.DigestTableBijective | src/include/libsign.h:134-142 | the explicit table between libsign digest algorithms and SELoader hash codes is a bijection, and it is not the identity |
| SELoader.FlagBitsAgree | src/signaturelet/SELoader.h:39-40 | the attached-content and detached bits are bits 0 and 1, the same as the orchestrator's; the PKCS#7 detached flag is bit 0 |
| SELoader.Pkcs7RoundTrip | src/signaturelet/SELoader.h:93-98 | the PKCS#7 signature payload (flags, then signature bytes) survives a round trip |

## Left out

- `dlopen`, `dlclose` and `getenv` are oracles in `Platform`. `dlclose` on unregister and on a registration that runs out of memory is not modelled.
- Registry.Register and Registry.Load apply a library's constructor registration as the descriptor carried by the `Module` that `dlopen` returns. Destructors are not modelled.
- Memory allocation failures are not modelled. This covers `malloc`, `strdup`, `strndup` and `realloc` in the registry, the splitter, `build_output_file_list` and `load_file`, and the leaks on those paths.
- Memory release is not modelled:
  - `free_output_file_list`;
  - the cleanup loop of `signlet_request`, which frees signature slots a failed sign loop never filled (undefined behaviour);
  - the entry leaked by unregister.
  
  `Signlet.BuildOutputFileList` only reports the entries it rolls back as a ghost value.
- `snprintf` truncation of candidate paths at `PATH_MAX` is not modelled. Paths are unbounded strings.
- Logging is not modelled. In debug builds, registration prints `sig->id` before the NULL check.
- OpenSSL work is not modelled: loading keys and certificates (oracles in `Env`), digest initialisation at registration, and PKCS#7 signing inside the SELoader signaturelet.
- The SELoader container is not built anywhere in the source. Only the declared records are modelled, not an encoder of the whole container. The width of the enum-typed algorithm payloads is not modelled.
- SELoader fields are stored little-endian. The source uses the host's byte order.
- The naming lookup `signaturelet_naming_pattern` is not declared in any of the headers. It is modelled as the `Env.namingPattern` oracle and kept separate from the flag-dependent `ResolveSuffix`. The SELoader descriptor's `.naming_pattern` initialiser has no matching field in the descriptor struct, so descriptors carry only `suffix_pattern`.
- Signlet.SignletRequest: runs the corrected program of the first two "Findings" rows. A short output list is refused with EXIT_FAILURE instead of dereferencing NULL at src/lib/signlet.c:104-108. A naming failure after every input signed returns EXIT_FAILURE instead of the 0 left in `rc` at src/lib/signlet.c:283-285. The code as written is `Signlet.ParseAsWritten` and `Signlet.CompleteAsWritten`.
- Signaturelet.Registry.Load: libraries are told apart by the path string handed to `dlopen`. The same file reached through two different paths counts as two libraries, whereas the dynamic loader recognises it as one. The `dlopen` oracle is also not required to keep succeeding for a path that is already loaded.
- Utils.SplitString: requires a non-empty delimiter. With an empty delimiter the loop at src/lib/utils.c:53-80 never terminates: `strstr` finds the empty string at the current position, so each token is empty and the input pointer never advances.
- Signlet.ParseRequest: requires at most 16 certificates. The source stores every certificate into a 16-entry table without a bound check, so longer lists write past it.
- Signlet.OutputNames: for an empty naming pattern the source reads past the string's terminator while measuring the suffix. The model takes the operator to be `'\0'` and the suffix to be empty.
- Signlet.BuildOutputFileList: when an input path and the suffix are both empty, the source leaves the output name uninitialised. The model gives the empty string.
- Files are counted as written only when `save_file` succeeds. A file that opened but failed to write is left truncated on disk, and that is not modelled.
- `unsigned int` truncation of file sizes and signature sizes is not modelled.
- The `digest_alg` and `cipher_alg` fields of a request are not read by the orchestrator and are not modelled.
- The registry's entries are a sequence. `Bcll` proves separately that the ring operations the registry uses behave as sequence append, removal and in-order traversal.
- `signlet_wait`, `signlet_cancel` and `signlet_finish` return 0 and do nothing.
- Not modelled: the command-line tool `selsign`, `libsign_utils_set_verbosity` and `libsign_utils_hex_dump`.

## Findings

| source | as written | input that shows it | evidently intended | confidence | as-written member | corrected member |
|---|---|---|---|---|---|---|
| src/lib/signlet.c:104-108 | a short output list is reported through `context->signed_file_list[i]`, which is still the NULL of the initial `memset` (it is set at line 136) | one readable input, a key that loads and an empty output list (`Signlet.ParseAsWrittenFaults`) | report the request's input name and return `EXIT_FAILURE` | high, not executed | Signlet.ParseAsWritten | Signlet.ParseRequest |
| src/lib/signlet.c:268-285 | when every file signs but the output list cannot be built, `rc` still holds the last `sign_file` code, 0 | every input signs and the naming lookup fails (`Signlet.NamingFailureReportsSuccess`) | return `EXIT_FAILURE`: nothing was written | high, not executed | Signlet.CompleteAsWritten | Signlet.CompleteOutcome |
| src/lib/utils.c:113-114 | `file_exists(NULL)` returns `EXIT_FAILURE`, which converts to `true` | a NULL path (`Utils.FileExistsNullDiscrepancy`) | return `false` | high, not executed | Utils.FileExistsAsWritten | Utils.FileExists |
