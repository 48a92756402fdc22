/** The signing orchestrator of libsign (src/lib/signlet.c): a request
    names a signaturelet, a list of files to sign, optional output names,
    a key and certificates. The request is validated, the signaturelet is
    loaded, every file is signed in order, output names are derived and the
    signatures are saved in order.

    Key and certificate loading, file access, the naming-pattern lookup,
    saving and the signaturelet's sign() callback are oracles gathered in
    `Env`. */
module Signlet {
  import opened Base
  import Utils
  import opened Signaturelet

  /** SIGNLET_MAX_NR_REQUEST: at most this many input files are taken. */
  const MaxNrRequest: nat := 256

  /** SIGNLET_MAX_NR_CERT: the size of the context's certificate table. */
  const MaxNrCert: nat := 16

  /** SIGNLET_FLAGS_CONTENT_ATTACHED and SIGNLET_FLAGS_DETACHED_SIGNATURE. */
  const FlagsContentAttached: bv64 := 1
  const FlagsDetachedSignature: bv64 := 2

  /** signlet_request_t. NULL pointers are None; a NULL-terminated list is
      the sequence of strings before its terminator. */
  datatype Request = Request(
    siglet: Option<string>,
    signedFiles: Option<seq<string>>,
    outputFiles: Option<seq<string>>,
    key: Option<string>,
    certs: Option<seq<string>>,
    flags: bv64)

  /** The outside world as the orchestrator sees it. */
  datatype Env = Env(
    keyLoads: string -> bool,                      // libsign_key_load succeeds
    certLoads: string -> bool,                     // libsign_x509_load succeeds
    readable: string -> bool,                      // access(path, R_OK) succeeds
    fs: string -> Utils.FileState,                 // what load_file finds at a path
    namingPattern: string -> Option<string>,       // signaturelet_naming_pattern
    creates: string -> bool,                       // fopen(path, "w") succeeds
    writes: (string, seq<byte>) -> bool,           // fwrite of the buffer succeeds
    produce: (Descriptor, SignArgs) -> Produced)   // a descriptor's sign()

  /** Why parse_request turns a request away, in the order it checks. */
  datatype ParseError =
    | NullRequest
    | NoSiglet
    | ConflictingFlags
    | NoSignedFiles
    | EmptySignedFiles
    | NoKey
    | KeyLoadFailed
    | MissingFile(index: nat)
    | MissingOutput(index: nat)
    | CertLoadFailed(index: nat)

  /** signlet_context after a successful parse_request. */
  datatype Context = Context(
    siglet: string,
    signedFiles: seq<string>,
    nrSignedFile: nat,
    outputFiles: Option<seq<string>>,
    key: string,
    certs: seq<string>,
    flags: bv64)

  /** The result of parse_request; `truncated` says whether the warning
      about the file cap was issued. */
  datatype Parsed = Rejected(why: ParseError) | Accepted(ctx: Context, truncated: bool)

  /** The position of the first string the oracle refuses. */
  function FirstRefused(xs: seq<string>, ok: string -> bool): (r: Option<nat>)
    ensures r.None? <==> forall i :: 0 <= i < |xs| ==> ok(xs[i])
    ensures r.Some? ==>
      && r.value < |xs| && !ok(xs[r.value])
      && forall i :: 0 <= i < r.value ==> ok(xs[i])
  {
    if xs == [] then None
    else if !ok(xs[0]) then Some(0)
    else
      match FirstRefused(xs[1..], ok)
      case None => None
      case Some(k) => Some(k + 1)
  }

  /** A refused string preceded only by accepted ones is the first refused. */
  lemma FirstRefusedAt(xs: seq<string>, ok: string -> bool, j: nat)
    requires j < |xs| && !ok(xs[j])
    requires forall i :: 0 <= i < j ==> ok(xs[i])
    ensures FirstRefused(xs, ok) == Some(j)
  {
    var r := FirstRefused(xs, ok);
    assert r.Some?;
    if r.value < j {
    } else if r.value > j {
    }
  }

  /** How many input files the counting loop takes: all of them, up to the cap. */
  function Counted(n: nat): (r: nat)
    ensures r <= n && r <= MaxNrRequest
    ensures r == n || r == MaxNrRequest
  {
    if n < MaxNrRequest then n else MaxNrRequest
  }

  /** Both content-attached and detached-signature requested. */
  predicate FlagsConflict(flags: bv64)
  {
    flags & FlagsContentAttached != 0 && flags & FlagsDetachedSignature != 0
  }

  /** The certificate list parse_request walks: none when it is NULL. */
  function CertList(q: Request): seq<string>
  {
    if q.certs.Some? then q.certs.value else []
  }

  /** parse_request, with the report for a missing output entry returning
      failure (see ParseAsWritten). */
  function Parse(request: Option<Request>, env: Env): (r: Parsed)
  {
    if request.None? then Rejected(NullRequest)
    else
      var q := request.value;
      if q.siglet.None? then Rejected(NoSiglet)
      else if FlagsConflict(q.flags) then Rejected(ConflictingFlags)
      else if q.signedFiles.None? then Rejected(NoSignedFiles)
      else if q.signedFiles.value == [] then Rejected(EmptySignedFiles)
      else if q.key.None? then Rejected(NoKey)
      else if !env.keyLoads(q.key.value) then Rejected(KeyLoadFailed)
      else
        var files := q.signedFiles.value;
        var nr := Counted(|files|);
        match FirstRefused(files[..nr], env.readable)
        case Some(i) => Rejected(MissingFile(i))
        case None =>
          if q.outputFiles.Some? && |q.outputFiles.value| < nr then Rejected(MissingOutput(|q.outputFiles.value|))
          else
            match FirstRefused(CertList(q), env.certLoads)
            case Some(i) => Rejected(CertLoadFailed(i))
            case None =>
              Accepted(Context(q.siglet.value, files, nr, q.outputFiles, q.key.value, CertList(q), q.flags),
                       |files| >= MaxNrRequest)
  }

  /** What an accepted request guarantees the later stages. */
  predicate ContextWellFormed(ctx: Context)
  {
    && 1 <= ctx.nrSignedFile <= |ctx.signedFiles|
    && ctx.nrSignedFile <= MaxNrRequest
    && (ctx.outputFiles.Some? ==> ctx.nrSignedFile <= |ctx.outputFiles.value|)
  }

  /** An accepted request: the counted files are the first ones, capped at
      256, every one of them readable; the warning is issued exactly when
      the list holds 256 files or more; an output list covers every counted
      file; every certificate loads and all of them are kept. */
  lemma ParseAccepted(request: Option<Request>, env: Env)
    requires Parse(request, env).Accepted?
    ensures var ctx := Parse(request, env).ctx;
      var q := request.value;
      && ContextWellFormed(ctx)
      && q.siglet == Some(ctx.siglet) && q.key == Some(ctx.key) && q.flags == ctx.flags
      && !FlagsConflict(ctx.flags) && env.keyLoads(ctx.key)
      && q.signedFiles == Some(ctx.signedFiles) && q.outputFiles == ctx.outputFiles
      && ctx.nrSignedFile == Counted(|ctx.signedFiles|)
      && (Parse(request, env).truncated <==> |ctx.signedFiles| >= MaxNrRequest)
      && (forall i :: 0 <= i < ctx.nrSignedFile ==> env.readable(ctx.signedFiles[i]))
      && ctx.certs == CertList(q)
      && (forall i :: 0 <= i < |ctx.certs| ==> env.certLoads(ctx.certs[i]))
  {
    var files := request.value.signedFiles.value;
    var nr := Counted(|files|);
    assert FirstRefused(files[..nr], env.readable).None?;
    forall i | 0 <= i < nr
      ensures env.readable(files[i])
    {
      assert files[..nr][i] == files[i];
    }
  }

  /** The key is probed before any input file: a request whose key is
      missing or does not load is turned away for that, whatever the file
      system holds. */
  lemma KeyProbedBeforeFiles(q: Request, env: Env)
    requires q.siglet.Some? && !FlagsConflict(q.flags)
    requires q.signedFiles.Some? && q.signedFiles.value != []
    ensures q.key.None? ==> Parse(Some(q), env) == Rejected(NoKey)
    ensures q.key.Some? && !env.keyLoads(q.key.value) ==> Parse(Some(q), env) == Rejected(KeyLoadFailed)
    ensures q.key.None? || !env.keyLoads(q.key.value) ==>
      forall readable: string -> bool :: Parse(Some(q), env.(readable := readable)) == Parse(Some(q), env)
  {
  }

  /** Files after the 256th are never checked: two file systems that agree
      on the first 256 inputs give the same outcome. */
  lemma FilesBeyondCapIgnored(q: Request, env: Env, readable: string -> bool)
    requires q.signedFiles.Some?
    requires forall i :: 0 <= i < |q.signedFiles.value| && i < MaxNrRequest ==>
      readable(q.signedFiles.value[i]) == env.readable(q.signedFiles.value[i])
    ensures Parse(Some(q), env.(readable := readable)) == Parse(Some(q), env)
  {
    var files := q.signedFiles.value;
    var nr := Counted(|files|);
    FirstRefusedAgree(files[..nr], readable, env.readable);
  }

  /** Two oracles that agree on a list find the same first refusal. */
  lemma {:induction false} FirstRefusedAgree(xs: seq<string>, ok1: string -> bool, ok2: string -> bool)
    requires forall i :: 0 <= i < |xs| ==> ok1(xs[i]) == ok2(xs[i])
    ensures FirstRefused(xs, ok1) == FirstRefused(xs, ok2)
  {
    if xs != [] {
      FirstRefusedAgree(xs[1..], ok1, ok2);
    }
  }

  /** The result of running parse_request as written: a request whose
      output list is too short is reported through
      context->signed_file_list, which is still the NULL pointer of the
      initial memset at that point (it is filled in only on success), so
      that path faults instead of returning. */
  datatype Completion = Returned(p: Parsed) | Faulted

  /** parse_request as written. */
  function ParseAsWritten(request: Option<Request>, env: Env): (r: Completion)
    ensures r.Faulted? <==> Parse(request, env).Rejected? && Parse(request, env).why.MissingOutput?
    ensures r.Returned? ==> r.p == Parse(request, env)
  {
    match Parse(request, env)
    case Rejected(MissingOutput(_)) => Faulted
    case p => Returned(p)
  }

  /** One existing input with an empty output list reaches the fault. */
  lemma ParseAsWrittenFaults(env: Env, file: string, key: string)
    requires env.keyLoads(key) && env.readable(file)
    ensures var q := Request(Some("SELoader"), Some([file]), Some([]), Some(key), None, 0);
      && ParseAsWritten(Some(q), env) == Faulted
      && Parse(Some(q), env) == Rejected(MissingOutput(0))
  {
    var q := Request(Some("SELoader"), Some([file]), Some([]), Some(key), None, 0);
    assert FlagsContentAttached & 0 == 0;
    assert !FlagsConflict(q.flags);
    assert [file][..1] == [file];
    assert FirstRefused([file], env.readable) == None;
  }

  /** parse_request: the checks in source order; the counting loop stops at
      the first missing file or when the count reaches the cap; the output
      check walks the first counted entries of the output list; every
      certificate is loaded and stored in the context's table. */
  method ParseRequest(request: Option<Request>, env: Env) returns (rc: int, parsed: Parsed)
    requires request.Some? && request.value.certs.Some? ==> |request.value.certs.value| <= MaxNrCert
    ensures parsed == Parse(request, env)
    ensures rc == ExitSuccess <==> parsed.Accepted?
    ensures rc == ExitSuccess || rc == ExitFailure
  {
    if request.None? {
      return ExitFailure, Rejected(NullRequest);
    }
    var q := request.value;
    if q.siglet.None? {
      return ExitFailure, Rejected(NoSiglet);
    }
    if q.flags & FlagsContentAttached != 0 && q.flags & FlagsDetachedSignature != 0 {
      return ExitFailure, Rejected(ConflictingFlags);
    }
    if q.signedFiles.None? {
      return ExitFailure, Rejected(NoSignedFiles);
    } else if q.signedFiles.value == [] {
      return ExitFailure, Rejected(EmptySignedFiles);
    }
    if q.key.None? {
      return ExitFailure, Rejected(NoKey);
    }
    if !env.keyLoads(q.key.value) {
      return ExitFailure, Rejected(KeyLoadFailed);
    }

    var files := q.signedFiles.value;
    var nr: nat := 0;
    var truncated := false;
    while nr < |files|
      invariant nr <= |files| && nr < MaxNrRequest
      invariant forall i :: 0 <= i < nr ==> env.readable(files[i])
    {
      if !env.readable(files[nr]) {
        assert files[..Counted(|files|)][nr] == files[nr];
        FirstRefusedAt(files[..Counted(|files|)], env.readable, nr);
        return ExitFailure, Rejected(MissingFile(nr));
      }
      nr := nr + 1;
      if nr >= MaxNrRequest {
        truncated := true;
        break;
      }
    }
    assert nr == Counted(|files|) && (truncated <==> |files| >= MaxNrRequest);
    assert forall i :: 0 <= i < nr ==> env.readable(files[..nr][i]);

    if q.outputFiles.Some? {
      var outs := q.outputFiles.value;
      var i := 0;
      while i < nr
        invariant i <= nr && i <= |outs|
      {
        if i == |outs| {
          return ExitFailure, Rejected(MissingOutput(i));
        }
        i := i + 1;
      }
    }

    var certs := CertList(q);
    var certTable := new string[MaxNrCert];
    var nrCert := 0;
    if certs != [] {
      while nrCert < |certs|
        invariant nrCert <= |certs|
        invariant certTable[..nrCert] == certs[..nrCert]
        invariant forall i :: 0 <= i < nrCert ==> env.certLoads(certs[i])
      {
        if !env.certLoads(certs[nrCert]) {
          FirstRefusedAt(certs, env.certLoads, nrCert);
          return ExitFailure, Rejected(CertLoadFailed(nrCert));
        }
        certTable[nrCert] := certs[nrCert];
        nrCert := nrCert + 1;
      }
    }
    assert certTable[..nrCert] == certs;

    var ctx := Context(q.siglet.value, files, nr, q.outputFiles, q.key.value, certTable[..nrCert], q.flags);
    return ExitSuccess, Accepted(ctx, truncated);
  }

  // ---------------------------------------------------------------------
  // Output names
  // ---------------------------------------------------------------------

  /** The operator of a naming pattern: its first character ('\0' for the
      empty string). */
  function Operator(pattern: string): char
  {
    if pattern == [] then '\0' else pattern[0]
  }

  /** The suffix behind the operator. */
  function Suffix(pattern: string): string
  {
    if pattern == [] then [] else pattern[1..]
  }

  /** build_output_file_list: the naming-pattern lookup must succeed, even
      when an explicit list is given; output i is the i-th explicit name,
      or else the i-th input with the pattern's suffix appended when the
      operator is '+'; any other operator fails. */
  function OutputNames(ctx: Context, naming: Option<string>): (r: Option<seq<string>>)
    requires ContextWellFormed(ctx)
    ensures r.Some? <==> naming.Some? && (ctx.outputFiles.Some? || Operator(naming.value) == '+')
    ensures r.Some? ==> |r.value| == ctx.nrSignedFile
    ensures r.Some? && ctx.outputFiles.Some? ==> r.value == ctx.outputFiles.value[..ctx.nrSignedFile]
    ensures r.Some? && ctx.outputFiles.None? ==>
      forall i :: 0 <= i < ctx.nrSignedFile ==> r.value[i] == ctx.signedFiles[i] + Suffix(naming.value)
  {
    if naming.None? then None
    else if ctx.outputFiles.Some? then Some(ctx.outputFiles.value[..ctx.nrSignedFile])
    else if Operator(naming.value) == '+' then
      Some(seq(ctx.nrSignedFile, i requires 0 <= i < ctx.nrSignedFile => ctx.signedFiles[i] + Suffix(naming.value)))
    else None
  }

  /** A derived output name gives its input back once the suffix is cut
      off, so distinct inputs get distinct outputs. */
  lemma DerivedNamesRecoverInputs(ctx: Context, naming: Option<string>)
    requires ContextWellFormed(ctx)
    requires OutputNames(ctx, naming).Some? && ctx.outputFiles.None?
    ensures var names := OutputNames(ctx, naming).value;
      forall i :: 0 <= i < ctx.nrSignedFile ==>
        names[i][..|names[i]| - |Suffix(naming.value)|] == ctx.signedFiles[i]
    ensures var names := OutputNames(ctx, naming).value;
      forall i, j :: 0 <= i < j < ctx.nrSignedFile && ctx.signedFiles[i] != ctx.signedFiles[j] ==> names[i] != names[j]
  {
    var names := OutputNames(ctx, naming).value;
    var sfx := Suffix(naming.value);
    forall i | 0 <= i < ctx.nrSignedFile
      ensures names[i][..|names[i]| - |sfx|] == ctx.signedFiles[i]
    {
      assert names[i] == ctx.signedFiles[i] + sfx;
    }
  }

  /** build_output_file_list: fills a table of nr_signed_file names and,
      when an entry cannot be made, gives back the entries made so far and
      returns NULL. */
  method BuildOutputFileList(ctx: Context, naming: Option<string>)
    returns (list: Option<seq<string>>, ghost released: seq<string>)
    requires ContextWellFormed(ctx)
    ensures list == OutputNames(ctx, naming)
    ensures list.Some? ==> released == []
  {
    released := [];
    if naming.None? {
      return None, released;
    }
    var pattern := naming.value;
    var op := Operator(pattern);
    var suffix := Suffix(pattern);
    var nr := ctx.nrSignedFile;
    var table := new string[nr];
    var i := 0;
    while i < nr
      invariant i <= nr
      invariant ctx.outputFiles.None? ==> op == '+' || i == 0
      invariant ctx.outputFiles.Some? ==> table[..i] == ctx.outputFiles.value[..i]
      invariant ctx.outputFiles.None? ==>
        forall k :: 0 <= k < i ==> table[k] == ctx.signedFiles[k] + suffix
    {
      var path := ctx.signedFiles[i];
      var output: Option<string> := None;
      if ctx.outputFiles.Some? {
        output := Some(ctx.outputFiles.value[i]);
      } else if op == '+' {
        output := Some(path + suffix);
      }
      if output.None? {
        break;
      }
      table[i] := output.value;
      i := i + 1;
    }
    if i != nr {
      assert ctx.outputFiles.None? && op != '+';
      released := table[..i];
      return None, released;
    }
    list := Some(table[..]);
    if ctx.outputFiles.Some? {
      assert table[..] == table[..nr];
    } else {
      assert op == '+';
      assert table[..] == OutputNames(ctx, naming).value;
    }
  }

  // ---------------------------------------------------------------------
  // Signing and saving
  // ---------------------------------------------------------------------

  /** sign_file: load the input, then hand it with the context's key,
      certificates and flags to signaturelet_sign. */
  function SignFile(ctx: Context, entries: seq<Entry>, env: Env, path: string): (r: Produced)
    ensures Utils.LoadFile(Some(path), true, true, env.fs).None? ==> r == Produced(ExitFailure, [])
    ensures Utils.LoadFile(Some(path), true, true, env.fs).Some? ==>
      var data := Utils.LoadFile(Some(path), true, true, env.fs).value;
      r == Sign(entries, SignArgs(Some(ctx.siglet), Some(data), |data|, Some(ctx.key), Some(ctx.certs),
                                  |ctx.certs|, true, true, ctx.flags), env.produce)
  {
    match Utils.LoadFile(Some(path), true, true, env.fs)
    case None => Produced(ExitFailure, [])
    case Some(data) =>
      Sign(entries, SignArgs(Some(ctx.siglet), Some(data), |data|, Some(ctx.key), Some(ctx.certs),
                             |ctx.certs|, true, true, ctx.flags), env.produce)
  }

  /** Where the sign loop ends after the first n inputs: at the first
      failing one, with its code, or with every signature in input order. */
  datatype SignStage = SignFailed(rc: int, index: nat) | AllSigned(sigs: seq<seq<byte>>)

  /** The sign loop of signlet_request over the first n inputs. */
  function SignPrefix(ctx: Context, entries: seq<Entry>, env: Env, n: nat): (r: SignStage)
    requires n <= |ctx.signedFiles|
    ensures r.AllSigned? ==>
      && |r.sigs| == n
      && forall i :: 0 <= i < n ==>
           SignFile(ctx, entries, env, ctx.signedFiles[i]).rc == 0 &&
           r.sigs[i] == SignFile(ctx, entries, env, ctx.signedFiles[i]).sig
    ensures r.SignFailed? ==>
      && r.index < n && r.rc != 0
      && r.rc == SignFile(ctx, entries, env, ctx.signedFiles[r.index]).rc
      && forall i :: 0 <= i < r.index ==> SignFile(ctx, entries, env, ctx.signedFiles[i]).rc == 0
  {
    if n == 0 then AllSigned([])
    else
      match SignPrefix(ctx, entries, env, n - 1)
      case SignFailed(rc, k) => SignFailed(rc, k)
      case AllSigned(sigs) =>
        var p := SignFile(ctx, entries, env, ctx.signedFiles[n - 1]);
        if p.rc != 0 then SignFailed(p.rc, n - 1) else AllSigned(sigs + [p.sig])
  }

  /** Once the sign loop has failed, signing further inputs changes nothing. */
  lemma {:induction false} SignPrefixStaysFailed(ctx: Context, entries: seq<Entry>, env: Env, m: nat, n: nat)
    requires m <= n <= |ctx.signedFiles|
    requires SignPrefix(ctx, entries, env, m).SignFailed?
    ensures SignPrefix(ctx, entries, env, n) == SignPrefix(ctx, entries, env, m)
    decreases n - m
  {
    if m < n {
      SignPrefixStaysFailed(ctx, entries, env, m, n - 1);
    }
  }

  /** The code and signatures the sign loop hands back for where it ended. */
  predicate Reports(stage: SignStage, rc: int, sigs: seq<seq<byte>>)
  {
    match stage
    case SignFailed(r, _) => rc == r
    case AllSigned(s) => sigs == s && rc == ExitSuccess
  }

  /** The sign loop: inputs are signed in list order into a table of
      signature slots, stopping at the first failure. Its code is EXIT_FAILURE
      when there is nothing to sign and otherwise the last sign_file code. */
  method SignFiles(ctx: Context, entries: seq<Entry>, env: Env) returns (rc: int, sigs: seq<seq<byte>>)
    requires ContextWellFormed(ctx)
    ensures Reports(SignPrefix(ctx, entries, env, ctx.nrSignedFile), rc, sigs)
  {
    var nr := ctx.nrSignedFile;
    var slots := new seq<byte>[nr];
    sigs := [];
    rc := ExitFailure;
    var i := 0;
    while i < nr
      invariant i <= nr
      invariant SignPrefix(ctx, entries, env, i) == AllSigned(slots[..i])
      invariant i > 0 ==> rc == ExitSuccess
    {
      var p := SignFile(ctx, entries, env, ctx.signedFiles[i]);
      rc := p.rc;
      if rc != 0 {
        assert SignPrefix(ctx, entries, env, i + 1) == SignFailed(rc, i);
        SignPrefixStaysFailed(ctx, entries, env, i + 1, nr);
        return;
      }
      slots[i] := p.sig;
      assert slots[..i + 1] == slots[..i] + [p.sig];
      i := i + 1;
    }
    sigs := slots[..];
    assert slots[..] == slots[..nr];
  }

  /** Where the write loop ends after the first n outputs: its code and the
      outputs saved, in order. */
  datatype WriteStage = WriteStage(rc: int, written: seq<string>)

  /** The write loop of signlet_request over the first n outputs. */
  function WritePrefix(names: seq<string>, sigs: seq<seq<byte>>, env: Env, n: nat): (r: WriteStage)
    requires n <= |names| == |sigs|
    ensures r.rc == ExitSuccess || r.rc == ExitFailure
    ensures |r.written| <= n && r.written == names[..|r.written|]
    ensures forall i :: 0 <= i < |r.written| ==> Utils.SaveFile(names[i], sigs[i], env.creates, env.writes) == 0
    ensures r.rc == ExitSuccess <==> |r.written| == n
    ensures r.rc == ExitFailure ==> Utils.SaveFile(names[|r.written|], sigs[|r.written|], env.creates, env.writes) != 0
  {
    if n == 0 then WriteStage(ExitSuccess, [])
    else
      var w := WritePrefix(names, sigs, env, n - 1);
      if w.rc != ExitSuccess then w
      else if Utils.SaveFile(names[n - 1], sigs[n - 1], env.creates, env.writes) != 0 then WriteStage(ExitFailure, w.written)
      else WriteStage(ExitSuccess, w.written + [names[n - 1]])
  }

  /** The write loop: the signatures are saved in order under the output
      names; a failing save ends the loop, leaving the earlier files in
      place and never trying the later ones. */
  method WriteFiles(names: seq<string>, sigs: seq<seq<byte>>, env: Env) returns (rc: int, written: seq<string>)
    requires |names| == |sigs|
    ensures WriteStage(rc, written) == WritePrefix(names, sigs, env, |names|)
  {
    written := [];
    var i := 0;
    while i < |names|
      invariant i <= |names|
      invariant WritePrefix(names, sigs, env, i) == WriteStage(ExitSuccess, written)
    {
      if Utils.SaveFile(names[i], sigs[i], env.creates, env.writes) != 0 {
        rc := ExitFailure;
        WritePrefixStops(names, sigs, env, i + 1, |names|);
        return;
      }
      written := written + [names[i]];
      i := i + 1;
    }
    rc := ExitSuccess;
  }

  /** Once a save has failed, later outputs change nothing. */
  lemma {:induction false} WritePrefixStops(names: seq<string>, sigs: seq<seq<byte>>, env: Env, n: nat, m: nat)
    requires n <= m <= |names| == |sigs|
    requires WritePrefix(names, sigs, env, n).rc == ExitFailure
    ensures WritePrefix(names, sigs, env, m) == WritePrefix(names, sigs, env, n)
    decreases m - n
  {
    if m > n {
      WritePrefixStops(names, sigs, env, n, m - 1);
    }
  }

  /** What happens after loading: the sign loop, the output names and the
      write loop, with a failed naming step reported as a failure. */
  datatype Outcome = Outcome(rc: int, written: seq<string>)

  /** The stages of signlet_request after the signaturelet is loaded. */
  function Complete(ctx: Context, entries: seq<Entry>, env: Env): (r: Outcome)
    requires ContextWellFormed(ctx)
  {
    match SignPrefix(ctx, entries, env, ctx.nrSignedFile)
    case SignFailed(rc, _) => Outcome(rc, [])
    case AllSigned(sigs) =>
      match OutputNames(ctx, env.namingPattern(ctx.siglet))
      case None => Outcome(ExitFailure, [])
      case Some(names) =>
        var w := WritePrefix(names, sigs, env, ctx.nrSignedFile);
        Outcome(w.rc, w.written)
  }

  /** The batch promise: success means every input was signed and every
      output written in order; a signing failure writes nothing; a failed
      save at output k leaves exactly outputs 0..k-1 written. */
  lemma CompleteOutcome(ctx: Context, entries: seq<Entry>, env: Env)
    requires ContextWellFormed(ctx)
    ensures var r := Complete(ctx, entries, env);
      var s := SignPrefix(ctx, entries, env, ctx.nrSignedFile);
      var names := OutputNames(ctx, env.namingPattern(ctx.siglet));
      && (s.SignFailed? ==> r.rc != ExitSuccess && r.written == [])
      && (s.AllSigned? && names.None? ==> r.rc == ExitFailure && r.written == [])
      && (r.rc == ExitSuccess <==> s.AllSigned? && names.Some? && r.written == names.value)
      && (s.AllSigned? && names.Some? && r.rc != ExitSuccess ==>
            && |r.written| < ctx.nrSignedFile
            && r.written == names.value[..|r.written|]
            && Utils.SaveFile(names.value[|r.written|], s.sigs[|r.written|], env.creates, env.writes) != 0)
  {
    var s := SignPrefix(ctx, entries, env, ctx.nrSignedFile);
    var names := OutputNames(ctx, env.namingPattern(ctx.siglet));
    if s.AllSigned? && names.Some? {
      assert names.value[..ctx.nrSignedFile] == names.value;
    }
  }

  /** The stages after loading as written: when the output list cannot be
      built, rc still holds the code of the last sign_file call. */
  function CompleteAsWritten(ctx: Context, entries: seq<Entry>, env: Env): (r: Outcome)
    requires ContextWellFormed(ctx)
    ensures (SignPrefix(ctx, entries, env, ctx.nrSignedFile).AllSigned? &&
             OutputNames(ctx, env.namingPattern(ctx.siglet)).None?) ==> r == Outcome(ExitSuccess, [])
    ensures OutputNames(ctx, env.namingPattern(ctx.siglet)).Some? ==> r == Complete(ctx, entries, env)
  {
    match SignPrefix(ctx, entries, env, ctx.nrSignedFile)
    case SignFailed(rc, _) => Outcome(rc, [])
    case AllSigned(sigs) =>
      var lastRc := SignFile(ctx, entries, env, ctx.signedFiles[ctx.nrSignedFile - 1]).rc;
      match OutputNames(ctx, env.namingPattern(ctx.siglet))
      case None => Outcome(lastRc, [])
      case Some(names) =>
        var w := WritePrefix(names, sigs, env, ctx.nrSignedFile);
        Outcome(w.rc, w.written)
  }

  /** As written, a request whose signatures all succeed but whose output
      names cannot be built reports success with nothing written; the
      corrected pipeline reports failure. Elsewhere the two agree. */
  lemma NamingFailureReportsSuccess(ctx: Context, entries: seq<Entry>, env: Env)
    requires ContextWellFormed(ctx)
    requires SignPrefix(ctx, entries, env, ctx.nrSignedFile).AllSigned?
    requires env.namingPattern(ctx.siglet).None?
    ensures CompleteAsWritten(ctx, entries, env) == Outcome(ExitSuccess, [])
    ensures Complete(ctx, entries, env) == Outcome(ExitFailure, [])
  {
  }

  /** Whether signaturelet_load reports success for `id`. */
  predicate LoadSucceeds(entries: seq<Entry>, id: string, platform: Platform)
  {
    Find(entries, id).Some? || FirstOpenable(Candidates(id, platform.ldLibraryPath), platform.dlopen).Some?
  }

  /** signlet_request: parse, load the signaturelet, sign every input,
      derive the output names and save the signatures. A rejected request
      or a failed load returns before anything is signed. */
  method SignletRequest(registry: Registry, request: Option<Request>, platform: Platform, env: Env)
    returns (rc: int, written: seq<string>)
    requires registry.Valid()
    requires request.Some? && request.value.certs.Some? ==> |request.value.certs.value| <= MaxNrCert
    modifies registry, registry.handles
    ensures registry.Valid() && registry.handles == old(registry.handles)
    ensures Parse(request, env).Rejected? ==>
      && rc == ExitFailure && written == []
      && registry.entries == old(registry.entries) && registry.Handles() == old(registry.Handles())
      && registry.loaded == old(registry.loaded)
    ensures Parse(request, env).Accepted? ==>
      var id := request.value.siglet.value;
      && registry.entries == EntriesAfterLoad(old(registry.entries), old(registry.loaded), id, platform)
      && registry.Handles() == HandlesAfterLoad(old(registry.Handles()), old(registry.entries), id, platform)
      && registry.loaded == LoadedAfterLoad(old(registry.loaded), old(registry.entries), id, platform)
    ensures Parse(request, env).Accepted? && !LoadSucceeds(old(registry.entries), request.value.siglet.value, platform) ==>
      rc == ExitFailure && written == []
    ensures Parse(request, env).Accepted? && LoadSucceeds(old(registry.entries), request.value.siglet.value, platform) ==>
      var id := request.value.siglet.value;
      Outcome(rc, written) ==
        Complete(Parse(request, env).ctx, EntriesAfterLoad(old(registry.entries), old(registry.loaded), id, platform), env)
  {
    var parsed;
    rc, parsed := ParseRequest(request, env);
    if rc != ExitSuccess {
      return rc, [];
    }
    ParseAccepted(request, env);
    var ctx := parsed.ctx;
    ghost var attempted;
    rc, attempted := registry.Load(ctx.siglet, platform);
    if rc != ExitSuccess {
      return rc, [];
    }
    var sigs;
    rc, sigs := SignFiles(ctx, registry.entries, env);
    if rc != ExitSuccess {
      return rc, [];
    }
    var names;
    ghost var released;
    names, released := BuildOutputFileList(ctx, env.namingPattern(ctx.siglet));
    if names.None? {
      return ExitFailure, [];
    }
    rc, written := WriteFiles(names.value, sigs, env);
  }
}
