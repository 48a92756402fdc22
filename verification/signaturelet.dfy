/** The signaturelet registry of libsign (src/lib/signaturelet.c).
    A signaturelet is a plug-in described by a descriptor: an id, the
    digest algorithm it uses, its sign() callback and a list of suffix
    patterns that name the signature files it writes. The registry keeps
    copies of registered descriptors in insertion order (the storage is the
    ring list modelled in Bcll, seen here through its sequence of entries)
    and a bounded table of the handles of the libraries it has loaded. */
module Signaturelet {
  import opened Base
  import Utils

  /** The C exit codes the module returns. */
  const ExitSuccess: int := 0
  const ExitFailure: int := 1

  /** SIGNATURELET_DIR: the first place a signaturelet library is looked for. */
  const SignatureletDir: string := "/usr/lib/libsign/signaturelet"

  /** MAX_NR_SIGNATURELETS: the capacity of the handle table. */
  const MaxSignaturelets: nat := 16

  /** LIBSIGN_DIGEST_ALG_MAX: one past the last digest algorithm
      (NONE 0, SHA224 1, SHA256 2, SHA384 3, SHA512 4, SHA1 5). */
  const DigestAlgMax: int := 6

  /** libsign_digest_supported: NONE up to, and not including, MAX. */
  predicate DigestSupported(alg: int)
  {
    0 <= alg < DigestAlgMax
  }

  /** signaturelet_suffix_pattern_t: a flag bit and the suffix to use when
      the request's flags have it set or unset (NULL for none). */
  datatype SuffixPattern = SuffixPattern(flag: bv64, ifSet: Option<string>, ifUnset: Option<string>)

  /** The sign() callback of a descriptor, identified by name; what it
      produces is an oracle handed to Sign. */
  datatype Producer = Producer(name: string)

  /** libsign_signaturelet_t. NULL pointers are None; a NULL-terminated
      pattern array is the sequence of patterns before its terminator. */
  datatype Descriptor = Descriptor(
    id: Option<string>,
    description: Option<string>,
    digestAlg: int,
    cipherAlg: int,
    detached: bool,
    sign: Option<Producer>,
    suffixPattern: Option<seq<SuffixPattern>>)

  /** A dlopen handle: the running program (dlopen(NULL)) or a library. */
  datatype Handle = Program | Library(path: string)

  /** signaturelet_t: the registry's by-value copy of a descriptor and the
      handle taken when it was registered. */
  datatype Entry = Entry(sig: Descriptor, handle: Handle)

  // ---------------------------------------------------------------------
  // Sanity checks
  // ---------------------------------------------------------------------

  /** check_suffix: the operator must be '+' and the suffix behind it must
      be non-empty; an empty string has no operator and fails. */
  predicate SuffixValid(s: string)
  {
    |s| >= 2 && s[0] == '+'
  }

  /** One entry of a pattern list passes sanity_check_suffix_pattern: a
      non-zero flag, at least one suffix, and every suffix present valid. */
  predicate PatternValid(p: SuffixPattern)
  {
    && p.flag != 0
    && (p.ifSet.Some? || p.ifUnset.Some?)
    && (p.ifSet.Some? ==> SuffixValid(p.ifSet.value))
    && (p.ifUnset.Some? ==> SuffixValid(p.ifUnset.value))
  }

  /** sanity_check_suffix_pattern: the position of the first pattern the
      walk rejects, if any. */
  function FirstInvalidPattern(ps: seq<SuffixPattern>): (r: Option<nat>)
    ensures r.None? <==> forall i :: 0 <= i < |ps| ==> PatternValid(ps[i])
    ensures r.Some? ==>
      && r.value < |ps| && !PatternValid(ps[r.value])
      && forall i :: 0 <= i < r.value ==> PatternValid(ps[i])
  {
    if ps == [] then None
    else if !PatternValid(ps[0]) then Some(0)
    else
      match FirstInvalidPattern(ps[1..])
      case None => None
      case Some(k) => Some(k + 1)
  }

  /** Why sanity_check turns a descriptor away, in the order it checks. */
  datatype Rejection =
    | NullDescriptor
    | MissingId
    | MissingSign
    | UnsupportedDigest(alg: int)
    | MissingSuffixPattern
    | InvalidPattern(index: nat)

  /** Everything sanity_check demands of a descriptor. */
  predicate Acceptable(sig: Option<Descriptor>)
  {
    && sig.Some?
    && sig.value.id.Some? && sig.value.id.value != []
    && sig.value.sign.Some?
    && DigestSupported(sig.value.digestAlg)
    && sig.value.suffixPattern.Some? && sig.value.suffixPattern.value != []
    && forall i :: 0 <= i < |sig.value.suffixPattern.value| ==> PatternValid(sig.value.suffixPattern.value[i])
  }

  /** sanity_check: the checks in source order, reporting the first that fails. */
  function SanityCheck(sig: Option<Descriptor>): (r: Option<Rejection>)
    ensures r.None? <==> Acceptable(sig)
    ensures r == Some(NullDescriptor) <==> sig.None?
    ensures r.Some? && r.value.InvalidPattern? ==>
      && sig.Some? && sig.value.suffixPattern.Some?
      && r.value.index < |sig.value.suffixPattern.value|
      && !PatternValid(sig.value.suffixPattern.value[r.value.index])
  {
    if sig.None? then Some(NullDescriptor)
    else if sig.value.id.None? || sig.value.id.value == [] then Some(MissingId)
    else if sig.value.sign.None? then Some(MissingSign)
    else if !DigestSupported(sig.value.digestAlg) then Some(UnsupportedDigest(sig.value.digestAlg))
    else if sig.value.suffixPattern.None? || sig.value.suffixPattern.value == [] then Some(MissingSuffixPattern)
    else
      match FirstInvalidPattern(sig.value.suffixPattern.value)
      case Some(k) => Some(InvalidPattern(k))
      case None => None
  }

  /** The check order: a descriptor with no id is turned away for that,
      whatever else is wrong with it, and likewise down the list. */
  lemma SanityCheckOrder(sig: Descriptor)
    ensures sig.id.None? || sig.id.value == [] ==> SanityCheck(Some(sig)) == Some(MissingId)
    ensures sig.id.Some? && sig.id.value != [] && sig.sign.None? ==> SanityCheck(Some(sig)) == Some(MissingSign)
    ensures sig.id.Some? && sig.id.value != [] && sig.sign.Some? && !DigestSupported(sig.digestAlg) ==>
      SanityCheck(Some(sig)) == Some(UnsupportedDigest(sig.digestAlg))
  {
  }

  // ---------------------------------------------------------------------
  // Lookup and suffix resolution
  // ---------------------------------------------------------------------

  /** find_signaturelet: the position of the first entry, in insertion
      order, whose id is `id`. */
  function Find(entries: seq<Entry>, id: string): (r: Option<nat>)
    ensures r.None? <==> forall i :: 0 <= i < |entries| ==> entries[i].sig.id != Some(id)
    ensures r.Some? ==>
      && r.value < |entries| && entries[r.value].sig.id == Some(id)
      && forall i :: 0 <= i < r.value ==> entries[i].sig.id != Some(id)
  {
    if entries == [] then None
    else if entries[0].sig.id == Some(id) then Some(0)
    else
      match Find(entries[1..], id)
      case None => None
      case Some(k) => Some(k + 1)
  }

  /** Appending keeps earlier matches first: a later duplicate id is never
      found while an earlier entry with that id is present. */
  lemma {:induction false} FindAppend(entries: seq<Entry>, e: Entry, id: string)
    ensures Find(entries + [e], id) ==
      if Find(entries, id).Some? then Find(entries, id)
      else if e.sig.id == Some(id) then Some(|entries|)
      else None
  {
    if entries != [] {
      assert (entries + [e])[1..] == entries[1..] + [e];
      FindAppend(entries[1..], e, id);
    }
  }

  /** The suffix a pattern offers for the request's flags: the set branch
      when the pattern's flag bit is among them, the unset branch otherwise. */
  function Applicable(p: SuffixPattern, flags: bv64): Option<string>
  {
    if p.flag & flags != 0 then p.ifSet else p.ifUnset
  }

  /** The walk of signaturelet_suffix_pattern over one pattern list: the
      position of the first pattern whose applicable branch is non-NULL. */
  function FirstApplicable(ps: seq<SuffixPattern>, flags: bv64): (r: Option<nat>)
    ensures r.None? <==> forall i :: 0 <= i < |ps| ==> Applicable(ps[i], flags).None?
    ensures r.Some? ==>
      && r.value < |ps| && Applicable(ps[r.value], flags).Some?
      && forall i :: 0 <= i < r.value ==> Applicable(ps[i], flags).None?
  {
    if ps == [] then None
    else if Applicable(ps[0], flags).Some? then Some(0)
    else
      match FirstApplicable(ps[1..], flags)
      case None => None
      case Some(k) => Some(k + 1)
  }

  /** The outcome of signaturelet_suffix_pattern: failure for an unknown
      id, success with the output left as it was, or success with a suffix. */
  datatype SuffixLookup = UnknownId | Untouched | Suffix(suffix: string)

  /** Every entry of the registry passed the sanity check. */
  predicate AllAcceptable(entries: seq<Entry>)
  {
    forall i :: 0 <= i < |entries| ==> Acceptable(Some(entries[i].sig))
  }

  /** signaturelet_suffix_pattern over the registry's entries: unknown
      ids fail; otherwise the first pattern of that entry whose applicable
      branch is non-NULL supplies the suffix, and when none does the output
      is left untouched. */
  function ResolveSuffix(entries: seq<Entry>, id: string, flags: bv64): (r: SuffixLookup)
    requires AllAcceptable(entries)
    ensures r == UnknownId <==> Find(entries, id).None?
    ensures r != UnknownId ==>
      var ps := entries[Find(entries, id).value].sig.suffixPattern.value;
      && (r == Untouched <==> forall i :: 0 <= i < |ps| ==> Applicable(ps[i], flags).None?)
      && (r.Suffix? ==>
            var k := FirstApplicable(ps, flags).value;
            && Applicable(ps[k], flags) == Some(r.suffix)
            && forall i :: 0 <= i < k ==> Applicable(ps[i], flags).None?)
  {
    match Find(entries, id)
    case None => UnknownId
    case Some(k) =>
      var ps := entries[k].sig.suffixPattern.value;
      match FirstApplicable(ps, flags)
      case None => Untouched
      case Some(j) => Suffix(Applicable(ps[j], flags).value)
  }

  /** Because registration checks every pattern, whatever suffix the
      registry resolves is a '+' operator followed by a non-empty suffix. */
  lemma ResolvedSuffixIsValid(entries: seq<Entry>, id: string, flags: bv64)
    requires AllAcceptable(entries)
    ensures ResolveSuffix(entries, id, flags).Suffix? ==> SuffixValid(ResolveSuffix(entries, id, flags).suffix)
  {
    var r := ResolveSuffix(entries, id, flags);
    if r.Suffix? {
      var k := Find(entries, id).value;
      var ps := entries[k].sig.suffixPattern.value;
      assert Acceptable(Some(entries[k].sig));
      assert PatternValid(ps[FirstApplicable(ps, flags).value]);
    }
  }

  // ---------------------------------------------------------------------
  // Signing
  // ---------------------------------------------------------------------

  /** The arguments of signaturelet_sign; a NULL pointer is None or false. */
  datatype SignArgs = SignArgs(
    id: Option<string>,
    data: Option<seq<byte>>,
    dataSize: nat,
    key: Option<string>,
    certs: Option<seq<string>>,
    nrCert: nat,
    hasOutSig: bool,
    hasOutSigSize: bool,
    flags: bv64)

  /** What a sign() call gives back: its return code and the signature it
      stores through out_sig/out_sig_size (empty when it stores none). */
  datatype Produced = Produced(rc: int, sig: seq<byte>)

  /** The argument checks of signaturelet_sign. */
  predicate SignArgsRejected(a: SignArgs)
  {
    || a.id.None? || !a.hasOutSig || !a.hasOutSigSize || a.key.None? || a.certs.None?
    || (a.dataSize > 0 && a.data.None?)
    || (a.nrCert > 0 && a.certs.None?)
  }

  /** signaturelet_sign: bad arguments and unknown ids fail; otherwise the
      registered descriptor's sign() gets every argument unchanged and its
      result is returned. */
  function Sign(entries: seq<Entry>, args: SignArgs, produce: (Descriptor, SignArgs) -> Produced): (r: Produced)
    ensures SignArgsRejected(args) ==> r == Produced(ExitFailure, [])
    ensures !SignArgsRejected(args) && Find(entries, args.id.value).None? ==> r == Produced(ExitFailure, [])
    ensures !SignArgsRejected(args) && Find(entries, args.id.value).Some? ==>
      r == produce(entries[Find(entries, args.id.value).value].sig, args)
  {
    if SignArgsRejected(args) then Produced(ExitFailure, [])
    else
      match Find(entries, args.id.value)
      case None => Produced(ExitFailure, [])
      case Some(k) => produce(entries[k].sig, args)
  }

  /** A rejected call never reaches a producer: its result is the same
      whatever the registered sign() callbacks would do. */
  lemma SignRejectionIgnoresProducer(entries: seq<Entry>, args: SignArgs,
                                     p1: (Descriptor, SignArgs) -> Produced,
                                     p2: (Descriptor, SignArgs) -> Produced)
    requires SignArgsRejected(args) || Find(entries, args.id.value).None?
    ensures Sign(entries, args, p1) == Sign(entries, args, p2)
  {
  }

  // ---------------------------------------------------------------------
  // Registry state
  // ---------------------------------------------------------------------

  /** add_siglet_handle on the table's contents: a full table stays as it is. */
  function PushHandle(hs: seq<Handle>, h: Handle): (r: seq<Handle>)
    ensures |hs| <= MaxSignaturelets ==> |r| <= MaxSignaturelets
    ensures |hs| < MaxSignaturelets ==> r == hs + [h]
    ensures |hs| >= MaxSignaturelets ==> r == hs
  {
    if |hs| >= MaxSignaturelets then hs else hs + [h]
  }

  /** What a registration adds to the list: one entry holding a copy of the
      descriptor and the program handle, or nothing when it is refused. */
  function Registered(sig: Option<Descriptor>, programOpens: bool): (r: seq<Entry>)
    ensures |r| <= 1
    ensures r != [] <==> Acceptable(sig) && programOpens
  {
    if Acceptable(sig) && programOpens then [Entry(sig.value, Program)] else []
  }

  /** The list after signaturelet_unregister: the first entry with the id
      removed, or the list unchanged when there is none. */
  function Unregistered(entries: seq<Entry>, id: string): (r: seq<Entry>)
    ensures Find(entries, id).None? ==> r == entries
    ensures Find(entries, id).Some? ==> |r| == |entries| - 1
    ensures Find(entries, id).Some? ==>
      r == entries[..Find(entries, id).value] + entries[Find(entries, id).value + 1..]
  {
    match Find(entries, id)
    case None => entries
    case Some(k) => entries[..k] + entries[k + 1..]
  }

  /** Registering a descriptor whose id is new and unregistering that id
      gives back the list it started from. */
  lemma RegisterThenUnregister(entries: seq<Entry>, d: Descriptor, programOpens: bool)
    requires Acceptable(Some(d)) && programOpens
    requires Find(entries, d.id.value).None?
    ensures Unregistered(entries + Registered(Some(d), programOpens), d.id.value) == entries
  {
    var e := Entry(d, Program);
    FindAppend(entries, e, d.id.value);
    assert (entries + [e])[..|entries|] == entries;
  }

  /** Unregistering keeps every other entry, in order. */
  lemma UnregisterKeepsOthers(entries: seq<Entry>, id: string)
    requires Find(entries, id).Some?
    ensures var k := Find(entries, id).value;
      && (forall i :: 0 <= i < k ==> Unregistered(entries, id)[i] == entries[i])
      && (forall i :: k < i < |entries| ==> Unregistered(entries, id)[i - 1] == entries[i])
  {
    var k := Find(entries, id).value;
    var r := Unregistered(entries, id);
    assert r == entries[..k] + entries[k + 1..];
    forall i | k < i < |entries|
      ensures r[i - 1] == entries[i]
    {
      assert r[i - 1] == entries[k + 1..][i - 1 - k];
    }
  }

  /** The path tried first: the signaturelet directory. */
  function DefaultPath(id: string): string
  {
    SignatureletDir + "/" + id + ".siglet"
  }

  /** The path tried for one LD_LIBRARY_PATH directory. */
  function LibraryPath(dir: string, id: string): string
  {
    dir + "/signaturelet/" + id + ".siglet"
  }

  /** The paths tried for the directories of LD_LIBRARY_PATH, in order. */
  function LibraryCandidates(dirs: seq<string>, id: string): (r: seq<string>)
    ensures |r| == |dirs|
    ensures forall i :: 0 <= i < |dirs| ==> r[i] == LibraryPath(dirs[i], id)
  {
    seq(|dirs|, i requires 0 <= i < |dirs| => LibraryPath(dirs[i], id))
  }

  /** The candidate library paths signaturelet_load tries, in order: the
      signaturelet directory, then the signaturelet sub-directory of every
      non-empty directory named in LD_LIBRARY_PATH. */
  function Candidates(id: string, ldLibraryPath: Option<string>): (r: seq<string>)
    ensures |r| >= 1 && r[0] == DefaultPath(id)
    ensures ldLibraryPath.None? ==> |r| == 1
    ensures ldLibraryPath.Some? ==>
      var dirs := Utils.Strtok(ldLibraryPath.value, ':');
      && |r| == 1 + |dirs|
      && forall i :: 0 <= i < |dirs| ==> r[i + 1] == LibraryPath(dirs[i], id)
  {
    [DefaultPath(id)] +
    match ldLibraryPath
    case None => []
    case Some(p) => LibraryCandidates(Utils.Strtok(p, ':'), id)
  }

  /** A library that opened: the descriptor its constructor registers, if any. */
  datatype Module = Module(registers: Option<Descriptor>)

  /** The environment signaturelet_load and signaturelet_register see:
      dlopen on a path, whether dlopen(NULL) succeeds, and LD_LIBRARY_PATH. */
  datatype Platform = Platform(
    dlopen: string -> Option<Module>,
    programOpens: bool,
    ldLibraryPath: Option<string>)

  /** The position of the first candidate that opens. */
  function FirstOpenable(cands: seq<string>, dlopen: string -> Option<Module>): (r: Option<nat>)
    ensures r.None? <==> forall i :: 0 <= i < |cands| ==> dlopen(cands[i]).None?
    ensures r.Some? ==>
      && r.value < |cands| && dlopen(cands[r.value]).Some?
      && forall i :: 0 <= i < r.value ==> dlopen(cands[i]).None?
  {
    if cands == [] then None
    else if dlopen(cands[0]).Some? then Some(0)
    else
      match FirstOpenable(cands[1..], dlopen)
      case None => None
      case Some(k) => Some(k + 1)
  }

  /** A candidate that opens, preceded only by candidates that do not, is
      the one the search stops at. */
  lemma FirstOpenableAt(cands: seq<string>, dlopen: string -> Option<Module>, j: nat)
    requires j < |cands| && dlopen(cands[j]).Some?
    requires forall i :: 0 <= i < j ==> dlopen(cands[i]).None?
    ensures FirstOpenable(cands, dlopen) == Some(j)
  {
    var r := FirstOpenable(cands, dlopen);
    assert r.Some?;
    if r.value < j {
    } else if r.value > j {
    }
  }

  /** When the first candidate does not open, the search stops where it
      would stop among the rest, one position later. */
  lemma FirstOpenableSkip(c: string, rest: seq<string>, dlopen: string -> Option<Module>)
    requires dlopen(c).None?
    ensures FirstOpenable([c] + rest, dlopen) ==
      match FirstOpenable(rest, dlopen)
      case None => None
      case Some(k) => Some(k + 1)
  {
    assert ([c] + rest)[1..] == rest;
  }

  /** What a search over `cands` hands back: no module when nothing
      opens, otherwise the module and path of the first candidate that
      opens. */
  predicate Opened(cands: seq<string>, dlopen: string -> Option<Module>, m: Option<Module>, path: string)
  {
    match FirstOpenable(cands, dlopen)
    case None => m.None?
    case Some(k) => m == dlopen(cands[k]) && m.Some? && path == cands[k]
  }

  /** The paths a search over `cands` hands to dlopen: all of them when
      nothing opens, otherwise those up to and including the first that
      opens. */
  ghost predicate Tried(cands: seq<string>, dlopen: string -> Option<Module>, attempted: seq<string>)
  {
    match FirstOpenable(cands, dlopen)
    case None => attempted == cands
    case Some(k) => attempted == cands[..k + 1]
  }

  /** Putting a candidate that does not open in front of a search leaves
      its result and adds that candidate to the attempts. */
  lemma SearchedSkip(c: string, rest: seq<string>, dlopen: string -> Option<Module>,
                     m: Option<Module>, path: string, tail: seq<string>)
    requires dlopen(c).None? && Opened(rest, dlopen, m, path) && Tried(rest, dlopen, tail)
    ensures Opened([c] + rest, dlopen, m, path) && Tried([c] + rest, dlopen, [c] + tail)
  {
    FirstOpenableSkip(c, rest, dlopen);
    if FirstOpenable(rest, dlopen).Some? {
      var k := FirstOpenable(rest, dlopen).value;
      assert ([c] + rest)[..k + 2] == [c] + rest[..k + 1];
    }
  }

  /** The strtok walk of signaturelet_load over LD_LIBRARY_PATH: the
      signaturelet sub-directory of each directory in turn, stopping at
      the first path dlopen opens. */
  method SearchDirs(dirs: seq<string>, id: string, dlopen: string -> Option<Module>)
    returns (m: Option<Module>, path: string, ghost attempted: seq<string>)
    ensures Opened(LibraryCandidates(dirs, id), dlopen, m, path)
    ensures Tried(LibraryCandidates(dirs, id), dlopen, attempted)
  {
    ghost var cands := LibraryCandidates(dirs, id);
    m, path, attempted := None, [], [];
    var j := 0;
    while j < |dirs| && m.None?
      invariant 0 <= j <= |dirs|
      invariant attempted == cands[..j]
      invariant j > 0 ==> path == cands[j - 1] && m == dlopen(path)
      invariant j == 0 ==> m.None?
      invariant forall i :: 0 <= i < j - 1 ==> dlopen(cands[i]).None?
      decreases |dirs| - j
    {
      path := LibraryPath(dirs[j], id);
      attempted := attempted + [path];
      m := dlopen(path);
      j := j + 1;
      assert cands[..j] == cands[..j - 1] + [cands[j - 1]];
    }
    if m.None? {
      assert cands[..j] == cands;
      assert forall i :: 0 <= i < |cands| ==> dlopen(cands[i]).None?;
    } else {
      FirstOpenableAt(cands, dlopen, j - 1);
    }
  }

  /** The search of signaturelet_load: the signaturelet directory first,
      then, when LD_LIBRARY_PATH is set, the strtok tokens of it in order,
      stopping at the first path dlopen opens. `attempted` records the
      paths handed to dlopen. */
  method OpenFirst(id: string, platform: Platform) returns (m: Option<Module>, path: string, ghost attempted: seq<string>)
    ensures Opened(Candidates(id, platform.ldLibraryPath), platform.dlopen, m, path)
    ensures Tried(Candidates(id, platform.ldLibraryPath), platform.dlopen, attempted)
  {
    ghost var cands := Candidates(id, platform.ldLibraryPath);
    path := DefaultPath(id);
    m := platform.dlopen(path);
    if m.Some? {
      FirstOpenableAt(cands, platform.dlopen, 0);
      attempted := cands[..1];
      return;
    }
    if platform.ldLibraryPath.None? {
      attempted := cands;
      assert forall i :: 0 <= i < |cands| ==> platform.dlopen(cands[i]).None?;
      return;
    }
    var dirs := Utils.Strtok(platform.ldLibraryPath.value, ':');
    ghost var rest := LibraryCandidates(dirs, id);
    assert cands == [path] + rest;
    ghost var tail;
    m, path, tail := SearchDirs(dirs, id, platform.dlopen);
    SearchedSkip(DefaultPath(id), rest, platform.dlopen, m, path, tail);
    attempted := [DefaultPath(id)] + tail;
  }

  /** The registered list after signaturelet_load: unchanged for an id
      already registered or when no candidate opens. Opening a library for
      the first time runs its constructor, which registers its descriptor;
      dlopen of a library the process has already loaded hands back the
      existing handle and runs no constructor, so nothing is registered. */
  function EntriesAfterLoad(entries: seq<Entry>, loaded: set<string>, id: string, platform: Platform): (r: seq<Entry>)
    ensures |entries| <= |r| <= |entries| + 1 && r[..|entries|] == entries
    ensures Find(entries, id).Some? ==> r == entries
    ensures r != entries ==>
      var k := FirstOpenable(Candidates(id, platform.ldLibraryPath), platform.dlopen);
      && k.Some? && Candidates(id, platform.ldLibraryPath)[k.value] !in loaded
  {
    if Find(entries, id).Some? then entries
    else
      var cands := Candidates(id, platform.ldLibraryPath);
      match FirstOpenable(cands, platform.dlopen)
      case None => entries
      case Some(k) =>
        if cands[k] in loaded then entries
        else
          var r := entries + Registered(platform.dlopen(cands[k]).value.registers, platform.programOpens);
          assert r[..|entries|] == entries;
          r
  }

  /** The handle table after signaturelet_load: the opened library's handle
      is pushed, whether or not it was loaded before. */
  function HandlesAfterLoad(hs: seq<Handle>, entries: seq<Entry>, id: string, platform: Platform): (r: seq<Handle>)
    ensures |hs| <= MaxSignaturelets ==> |r| <= MaxSignaturelets
    ensures Find(entries, id).Some? || FirstOpenable(Candidates(id, platform.ldLibraryPath), platform.dlopen).None? ==> r == hs
  {
    if Find(entries, id).Some? then hs
    else
      var cands := Candidates(id, platform.ldLibraryPath);
      match FirstOpenable(cands, platform.dlopen)
      case None => hs
      case Some(k) => PushHandle(hs, Library(cands[k]))
  }

  /** The libraries the process has loaded after signaturelet_load. A
      library stays loaded for good: signaturelet_unregister closes only the
      dlopen(NULL) handle of the entry. */
  function LoadedAfterLoad(loaded: set<string>, entries: seq<Entry>, id: string, platform: Platform): (r: set<string>)
    ensures loaded <= r
    ensures Find(entries, id).None? ==>
      var cands := Candidates(id, platform.ldLibraryPath);
      var k := FirstOpenable(cands, platform.dlopen);
      k.Some? ==> cands[k.value] in r
  {
    if Find(entries, id).Some? then loaded
    else
      var cands := Candidates(id, platform.ldLibraryPath);
      match FirstOpenable(cands, platform.dlopen)
      case None => loaded
      case Some(k) => loaded + {cands[k]}
  }

  /** Loading a signaturelet, unregistering it and loading it again: the
      library is still loaded, so the second load runs no constructor and
      the id stays unknown, however the first load went. */
  lemma {:induction false} ReloadAfterUnregister(entries: seq<Entry>, loaded: set<string>, id: string, platform: Platform)
    requires Find(entries, id).None?
    ensures var e1 := EntriesAfterLoad(entries, loaded, id, platform);
      var o1 := LoadedAfterLoad(loaded, entries, id, platform);
      var e2 := Unregistered(e1, id);
      && Find(e2, id).None?
      && EntriesAfterLoad(e2, o1, id, platform) == e2
  {
    var e1 := EntriesAfterLoad(entries, loaded, id, platform);
    var e2 := Unregistered(e1, id);
    if e1 != entries {
      assert |e1| == |entries| + 1 && e1 == entries + [e1[|entries|]];
      FindAppend(entries, e1[|entries|], id);
      if Find(e1, id).Some? {
        assert Find(e1, id).value == |entries|;
        assert e2 == entries;
      } else {
        assert e2 == e1;
      }
    }
  }

  /** The global state of signaturelet.c: the registered entries in list
      order and the table of loaded library handles. */
  class Registry {
    var entries: seq<Entry>
    var handles: array<Handle>
    var nrHandles: nat
    /** The paths of the libraries the process has loaded. */
    var loaded: set<string>

    /** The table has its 16 slots and a count within them, and only
        descriptors that passed the sanity check are registered. */
    ghost predicate Valid()
      reads this
    {
      && handles.Length == MaxSignaturelets
      && nrHandles <= MaxSignaturelets
      && AllAcceptable(entries)
    }

    /** The handles added so far, in order. */
    ghost function Handles(): seq<Handle>
      requires Valid()
      reads this, handles
    {
      handles[..nrHandles]
    }

    /** The state at program start: an empty list and an empty table. */
    constructor ()
      ensures Valid() && entries == [] && nrHandles == 0 && loaded == {} && fresh(handles)
    {
      entries := [];
      handles := new Handle[MaxSignaturelets](_ => Program);
      nrHandles := 0;
      loaded := {};
    }

    /** add_siglet_handle: the handle goes into the next free slot; a full
        table is left as it is. */
    method AddHandle(h: Handle)
      requires Valid()
      modifies this, handles
      ensures Valid() && handles == old(handles) && entries == old(entries) && loaded == old(loaded)
      ensures Handles() == PushHandle(old(Handles()), h)
    {
      if nrHandles >= MaxSignaturelets {
        return;
      }
      handles[nrHandles] := h;
      nrHandles := nrHandles + 1;
    }

    /** signaturelet_register: a descriptor that passes the sanity check is
        copied to the tail of the list, paired with the dlopen(NULL) handle;
        anything else leaves the list unchanged. Duplicate ids are not
        refused. */
    method Register(sig: Option<Descriptor>, programOpens: bool) returns (rc: int)
      requires Valid()
      modifies this
      ensures Valid() && handles == old(handles) && nrHandles == old(nrHandles) && loaded == old(loaded)
      ensures rc == ExitSuccess <==> Acceptable(sig) && programOpens
      ensures rc == ExitSuccess || rc == ExitFailure
      ensures entries == old(entries) + Registered(sig, programOpens)
    {
      if SanityCheck(sig).Some? {
        return ExitFailure;
      }
      if !programOpens {
        return ExitFailure;
      }
      entries := entries + [Entry(sig.value, Program)];
      rc := ExitSuccess;
    }

    /** signaturelet_unregister: removes the first entry with the id;
        fails, changing nothing, when there is none. */
    method Unregister(id: string) returns (rc: int)
      requires Valid()
      modifies this
      ensures Valid() && handles == old(handles) && nrHandles == old(nrHandles) && loaded == old(loaded)
      ensures rc == ExitSuccess <==> Find(old(entries), id).Some?
      ensures rc == ExitSuccess || rc == ExitFailure
      ensures entries == Unregistered(old(entries), id)
    {
      match Find(entries, id)
      case None =>
        rc := ExitFailure;
      case Some(k) =>
        entries := entries[..k] + entries[k + 1..];
        rc := ExitSuccess;
    }

    /** signaturelet_load: nothing to do for a registered id. Otherwise the
        candidates are tried in order until one opens; opening a library
        for the first time runs its constructor, which registers its
        descriptor, and its handle goes into the table. Success does not
        depend on the registry holding `id` afterwards. `attempted` records
        the paths handed to dlopen. */
    method Load(id: string, platform: Platform) returns (rc: int, ghost attempted: seq<string>)
      requires Valid()
      modifies this, handles
      ensures Valid() && handles == old(handles)
      ensures entries == EntriesAfterLoad(old(entries), old(loaded), id, platform)
      ensures Handles() == HandlesAfterLoad(old(Handles()), old(entries), id, platform)
      ensures loaded == LoadedAfterLoad(old(loaded), old(entries), id, platform)
      ensures Find(old(entries), id).Some? ==> rc == ExitSuccess && attempted == []
      ensures Find(old(entries), id).None? ==>
        var cands := Candidates(id, platform.ldLibraryPath);
        match FirstOpenable(cands, platform.dlopen)
        case None => rc == ExitFailure && attempted == cands
        case Some(k) => rc == ExitSuccess && attempted == cands[..k + 1]
    {
      if Find(entries, id).Some? {
        return ExitSuccess, [];
      }
      var m, path;
      m, path, attempted := OpenFirst(id, platform);
      if m.None? {
        return ExitFailure, attempted;
      }
      if path !in loaded {
        loaded := loaded + {path};
        if m.value.registers.Some? {
          var _ := Register(m.value.registers, platform.programOpens);
        }
      }
      AddHandle(Library(path));
      rc := ExitSuccess;
    }
  }
}
