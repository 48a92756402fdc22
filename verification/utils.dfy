/** String and path utilities of libsign (src/lib/utils.c): the delimiter
    splitter, the `mkdir -p` prefix walk, and the contracts of the file
    helpers that the signing pipeline relies on. The C library routines the
    code calls (strstr, strspn, strcspn, strtok) are stated as functions. */
module Utils {
  import opened Base

  // ---------------------------------------------------------------------
  // strstr and friends
  // ---------------------------------------------------------------------

  /** `d` occurs in `s` starting at index `i`. */
  predicate OccursAt(s: string, d: string, i: nat)
  {
    i + |d| <= |s| && s[i..i + |d|] == d
  }

  /** `s` contains no occurrence of `d` at all. */
  predicate NoOccurrence(s: string, d: string)
  {
    forall i :: 0 <= i <= |s| ==> !OccursAt(s, d, i)
  }

  /** The first occurrence of `d` in `s` at or after index `i`. */
  function FindFrom(s: string, d: string, i: nat): (r: Option<nat>)
    requires i <= |s|
    ensures r.Some? ==> i <= r.value && OccursAt(s, d, r.value)
    ensures r.Some? ==> forall j :: i <= j < r.value ==> !OccursAt(s, d, j)
    ensures r.None? ==> forall j: nat :: i <= j ==> !OccursAt(s, d, j)
    decreases |s| - i
  {
    if OccursAt(s, d, i) then Some(i)
    else if i == |s| then None
    else FindFrom(s, d, i + 1)
  }

  /** strstr: the index of the first occurrence of `d` in `s`, if any. */
  function Find(s: string, d: string): Option<nat>
  {
    FindFrom(s, d, 0)
  }

  /** strspn(s + i, "c") as an index: the first index at or after `i` not holding `c`. */
  function SkipOver(s: string, i: nat, c: char): (r: nat)
    requires i <= |s|
    ensures i <= r <= |s| && (r < |s| ==> s[r] != c)
    ensures forall k :: i <= k < r ==> s[k] == c
    decreases |s| - i
  {
    if i == |s| || s[i] != c then i else SkipOver(s, i + 1, c)
  }

  /** strcspn(s + i, "c") as an index: the first index at or after `i` holding `c`, or |s|. */
  function SkipTo(s: string, i: nat, c: char): (r: nat)
    requires i <= |s|
    ensures i <= r <= |s| && (r < |s| ==> s[r] == c)
    ensures forall k :: i <= k < r ==> s[k] != c
    decreases |s| - i
  {
    if i == |s| || s[i] == c then i else SkipTo(s, i + 1, c)
  }

  // ---------------------------------------------------------------------
  // libsign_utils_split_string
  // ---------------------------------------------------------------------

  /** The tokens libsign_utils_split_string returns: the text before each
      occurrence of the delimiter, then the rest if it is not empty. Leading
      and consecutive delimiters yield empty tokens; no empty token follows a
      trailing delimiter. */
  function Split(s: string, d: string): seq<string>
    requires |d| > 0
    decreases |s|
  {
    if s == [] then []
    else match Find(s, d)
      case None => [s]
      case Some(p) => [s[..p]] + Split(s[p + |d|..], d)
  }

  /** The tokens glued back together with the delimiter between them. */
  function Join(ts: seq<string>, d: string): string
  {
    if ts == [] then []
    else if |ts| == 1 then ts[0]
    else ts[0] + d + Join(ts[1..], d)
  }

  predicate EndsWith(s: string, d: string)
  {
    |d| <= |s| && s[|s| - |d|..] == d
  }

  /** One step of the splitter on the unread part `input[i..]`: the token
      ends at the first occurrence of the delimiter, or at the end. */
  lemma SplitStep(input: string, i: nat, d: string) returns (len: nat, next: nat)
    requires |d| > 0 && i < |input|
    ensures len == match Find(input[i..], d) case Some(p) => p case None => |input| - i
    ensures next == i + len + (if Find(input[i..], d).Some? then |d| else 0)
    ensures i < next <= |input|
    ensures Split(input[i..], d) == [input[i..i + len]] + Split(input[next..], d)
  {
    var rest := input[i..];
    match Find(rest, d)
    case None =>
      len, next := |input| - i, |input|;
      assert input[i..i + len] == rest;
      assert Split(rest, d) == [rest];
      assert input[next..] == [];
    case Some(p) =>
      len, next := p, i + p + |d|;
      assert Split(rest, d) == [rest[..p]] + Split(rest[p + |d|..], d);
      assert rest[..p] == input[i..i + p];
      assert rest[p + |d|..] == input[next..];
  }

  /** Moving the next token from the unread part to the tokens found
      keeps the whole list of tokens. */
  lemma TokenMoves(found: seq<string>, token: string, tail: seq<string>, unread: seq<string>, all: seq<string>)
    requires found + unread == all && unread == [token] + tail
    ensures (found + [token]) + tail == all
  {
    assert (found + [token]) + tail == found + ([token] + tail);
  }

  /** The pointer-advancing loop of libsign_utils_split_string: `nr` counts
      the tokens, and the tokens are exactly those of `Split`. An empty
      delimiter would make the loop never advance, hence the precondition. */
  method SplitString(input: string, delim: string) returns (out: seq<string>, nr: nat)
    requires |delim| > 0
    ensures nr == |out|
    ensures out == Split(input, delim)
    ensures input == [] ==> nr == 0
  {
    out, nr := [], 0;
    var i := 0;
    assert input[i..] == input;
    while i < |input|
      invariant 0 <= i <= |input|
      invariant nr == |out|
      invariant out + Split(input[i..], delim) == Split(input, delim)
      decreases |input| - i
    {
      var p := Find(input[i..], delim);
      var len := if p.Some? then p.value else |input| - i;
      var next := i + len + (if p.Some? then |delim| else 0);
      ghost var l, n := SplitStep(input, i, delim);
      assert l == len && n == next;
      var token := input[i..i + len];
      TokenMoves(out, token, Split(input[next..], delim), Split(input[i..], delim), Split(input, delim));
      out := out + [token];
      nr := nr + 1;
      i := next;
    }
    assert input[i..] == [];
  }

  /** No token contains the delimiter. */
  lemma {:induction false} SplitTokensHaveNoDelimiter(s: string, d: string)
    requires |d| > 0
    ensures forall k :: 0 <= k < |Split(s, d)| ==> NoOccurrence(Split(s, d)[k], d)
    decreases |s|
  {
    if s != [] {
      match Find(s, d)
      case None =>
        assert Split(s, d) == [s];
      case Some(p) =>
        var rest := s[p + |d|..];
        SplitTokensHaveNoDelimiter(rest, d);
        var tok := s[..p];
        forall j: nat | OccursAt(tok, d, j)
          ensures false
        {
          assert tok[j..j + |d|] == s[j..j + |d|];
          assert OccursAt(s, d, j);
        }
        assert Split(s, d) == [tok] + Split(rest, d);
    }
  }

  lemma JoinCons(x: string, t: seq<string>, d: string)
    requires |t| >= 1
    ensures Join([x] + t, d) == x + d + Join(t, d)
  {
    assert ([x] + t)[1..] == t;
  }

  /** Joining the tokens with the delimiter gives back the input, except
      that a single trailing delimiter may be missing; when the input does
      not end with the delimiter nothing is missing. */
  lemma JoinStep(head: string, d: string, rest: string, t: seq<string>)
    requires |t| >= 1
    requires Join(t, d) == rest || Join(t, d) + d == rest
    requires !EndsWith(rest, d) ==> Join(t, d) == rest
    ensures Join([head] + t, d) == head + d + rest || Join([head] + t, d) + d == head + d + rest
    ensures !EndsWith(head + d + rest, d) ==> Join([head] + t, d) == head + d + rest
  {
    JoinCons(head, t, d);
    var j := Join(t, d);
    if j != rest {
      assert rest == j + d;
      assert rest[|rest| - |d|..] == d;
      var s := head + d + rest;
      assert s[|s| - |d|..] == rest[|rest| - |d|..];
    }
  }

  lemma {:induction false} SplitJoin(s: string, d: string)
    requires |d| > 0
    ensures Join(Split(s, d), d) == s || Join(Split(s, d), d) + d == s
    ensures !EndsWith(s, d) ==> Join(Split(s, d), d) == s
    decreases |s|
  {
    if s == [] {
    } else if Find(s, d).None? {
      assert Split(s, d) == [s];
    } else {
      var p := Find(s, d).value;
      var head, rest := s[..p], s[p + |d|..];
      assert s == head + d + rest;
      assert Split(s, d) == [head] + Split(rest, d);
      if rest == [] {
        assert Split(s, d) == [head];
        assert s[|s| - |d|..] == d;
      } else {
        SplitJoin(rest, d);
        JoinStep(head, d, rest, Split(rest, d));
      }
    }
  }

  /** A leading delimiter yields one empty token; repeated, this is also the
      behaviour for consecutive delimiters. */
  lemma SplitLeadingDelimiter(s: string, d: string)
    requires |d| > 0
    ensures Split(d + s, d) == [""] + Split(s, d)
  {
    assert OccursAt(d + s, d, 0);
    assert (d + s)[|d|..] == s;
  }

  // ---------------------------------------------------------------------
  // strtok(_, ":") as the plugin loader uses it
  // ---------------------------------------------------------------------

  /** The successive tokens strtok returns for a one-character delimiter
      set: maximal non-empty runs without `c`. */
  function Strtok(s: string, c: char): seq<string>
    decreases |s|
  {
    if s == [] then []
    else if s[0] == c then Strtok(s[1..], c)
    else
      var n := SkipTo(s, 0, c);
      [s[..n]] + Strtok(s[n..], c)
  }

  /** The non-empty strings of `ts`, in order. */
  function NonEmpty(ts: seq<string>): (r: seq<string>)
    ensures forall k :: 0 <= k < |r| ==> r[k] != []
  {
    if ts == [] then []
    else (if ts[0] == [] then [] else [ts[0]]) + NonEmpty(ts[1..])
  }

  lemma FindChar(s: string, c: char)
    ensures Find(s, [c]) == if SkipTo(s, 0, c) == |s| then None else Some(SkipTo(s, 0, c))
  {
    var n := SkipTo(s, 0, c);
    forall j: nat
      ensures OccursAt(s, [c], j) <==> j < |s| && s[j] == c
    {
      if j < |s| {
        assert s[j..j + 1] == [s[j]];
      }
    }
    if n < |s| {
      assert OccursAt(s, [c], n);
    }
  }

  /** strtok's tokens are the splitter's tokens with the empty ones dropped. */
  lemma {:induction false} StrtokIsSplitWithoutEmpties(s: string, c: char)
    ensures Strtok(s, c) == NonEmpty(Split(s, [c]))
    decreases |s|
  {
    if s != [] {
      FindChar(s, c);
      var n := SkipTo(s, 0, c);
      if s[0] == c {
        assert n == 0;
        StrtokIsSplitWithoutEmpties(s[1..], c);
        assert Split(s, [c]) == [[]] + Split(s[1..], [c]);
      } else if n == |s| {
        assert s[..n] == s;
        assert Split(s, [c]) == [s];
        assert Strtok(s, c) == [s] + Strtok([], c);
      } else {
        StrtokIsSplitWithoutEmpties(s[n + 1..], c);
        assert Split(s, [c]) == [s[..n]] + Split(s[n + 1..], [c]);
        assert s[n..][1..] == s[n + 1..];
        assert Strtok(s[n..], c) == Strtok(s[n + 1..], c);
      }
    }
  }

  // ---------------------------------------------------------------------
  // libsign_utils_mkdir
  // ---------------------------------------------------------------------

  /** What mkdir(2) did: succeeded, failed with EEXIST, or failed otherwise. */
  datatype MkdirResult = Created | AlreadyExists | Failed

  /** The walk creates `dir[..k]` exactly when `k` is a non-empty prefix
      length that ends just after a run of '/' (before the next component),
      or the whole path. */
  predicate IsMkdirPoint(dir: string, k: nat)
  {
    0 < k <= |dir| && (k == |dir| || (dir[k - 1] == '/' && dir[k] != '/'))
  }

  /** The prefixes the walk would create among lengths below `hi`, shortest first. */
  function MkdirTargets(dir: string, hi: nat): seq<string>
    requires hi <= |dir| + 1
  {
    if hi == 0 then []
    else MkdirTargets(dir, hi - 1) + (if IsMkdirPoint(dir, hi - 1) then [dir[..hi - 1]] else [])
  }

  /** Every prefix libsign_utils_mkdir passes to mkdir, in call order. */
  function MkdirPlan(dir: string): seq<string>
  {
    MkdirTargets(dir, |dir| + 1)
  }

  lemma {:induction false} MkdirTargetsMonotone(dir: string, lo: nat, hi: nat)
    requires lo <= hi <= |dir| + 1
    ensures MkdirTargets(dir, lo) <= MkdirTargets(dir, hi)
    decreases hi - lo
  {
    if lo < hi {
      MkdirTargetsMonotone(dir, lo, hi - 1);
    }
  }

  lemma {:induction false} MkdirTargetsSkip(dir: string, lo: nat, hi: nat)
    requires lo <= hi <= |dir| + 1
    requires forall k :: lo <= k < hi ==> !IsMkdirPoint(dir, k)
    ensures MkdirTargets(dir, hi) == MkdirTargets(dir, lo)
    decreases hi - lo
  {
    if lo < hi {
      MkdirTargetsSkip(dir, lo, hi - 1);
    }
  }

  /** Every planned prefix is a genuine non-empty prefix of `dir` ending at a walk point. */
  lemma {:induction false} MkdirTargetsArePoints(dir: string, hi: nat)
    requires hi <= |dir| + 1
    ensures forall i :: 0 <= i < |MkdirTargets(dir, hi)| ==>
      0 < |MkdirTargets(dir, hi)[i]| < hi &&
      MkdirTargets(dir, hi)[i] == dir[..|MkdirTargets(dir, hi)[i]|] &&
      IsMkdirPoint(dir, |MkdirTargets(dir, hi)[i]|)
    decreases hi
  {
    if hi > 0 {
      MkdirTargetsArePoints(dir, hi - 1);
      var prev := MkdirTargets(dir, hi - 1);
      if IsMkdirPoint(dir, hi - 1) {
        assert MkdirTargets(dir, hi) == prev + [dir[..hi - 1]];
      } else {
        assert MkdirTargets(dir, hi) == prev;
      }
    }
  }

  /** The planned prefixes come in strictly increasing length. */
  lemma {:induction false} MkdirTargetsIncreasing(dir: string, hi: nat)
    requires hi <= |dir| + 1
    ensures forall i, j :: 0 <= i < j < |MkdirTargets(dir, hi)| ==>
      |MkdirTargets(dir, hi)[i]| < |MkdirTargets(dir, hi)[j]|
    decreases hi
  {
    if hi > 0 {
      MkdirTargetsIncreasing(dir, hi - 1);
      MkdirTargetsArePoints(dir, hi - 1);
      var prev := MkdirTargets(dir, hi - 1);
      if IsMkdirPoint(dir, hi - 1) {
        var t := prev + [dir[..hi - 1]];
        assert MkdirTargets(dir, hi) == t;
        forall i, j | 0 <= i < j < |t|
          ensures |t[i]| < |t[j]|
        {
          if j == |prev| {
            assert |t[i]| == |prev[i]| < hi - 1;
          } else {
            assert t[i] == prev[i] && t[j] == prev[j];
          }
        }
      }
    }
  }

  /** Every walk point below `hi` has its prefix in the plan. */
  lemma {:induction false} MkdirTargetsComplete(dir: string, hi: nat)
    requires hi <= |dir| + 1
    ensures forall k :: 0 <= k < hi && IsMkdirPoint(dir, k) ==> dir[..k] in MkdirTargets(dir, hi)
    decreases hi
  {
    if hi > 0 {
      MkdirTargetsComplete(dir, hi - 1);
      MkdirTargetsMonotone(dir, hi - 1, hi);
    }
  }

  /** For a non-empty path the last directory created is the path itself. */
  lemma MkdirPlanEndsWithPath(dir: string)
    requires dir != []
    ensures |MkdirPlan(dir)| > 0 && MkdirPlan(dir)[|MkdirPlan(dir)| - 1] == dir
  {
    assert IsMkdirPoint(dir, |dir|);
    assert dir[..|dir|] == dir;
  }

  /** The cursor loop of libsign_utils_mkdir with mkdir(2) as an oracle: it
      calls mkdir on the planned prefixes in order, stops at the first
      failure other than EEXIST and then returns -1, and returns 0 when
      every call succeeded or found the directory already there. */
  method Mkdir(dir: string, mkdir: string -> MkdirResult) returns (rc: int, calls: seq<string>)
    ensures rc == 0 || rc == -1
    ensures calls <= MkdirPlan(dir)
    ensures forall i :: 0 <= i < |calls| - 1 ==> mkdir(calls[i]) != Failed
    ensures rc == 0 ==> calls == MkdirPlan(dir) && forall i :: 0 <= i < |calls| ==> mkdir(calls[i]) != Failed
    ensures rc == -1 ==> |calls| > 0 && mkdir(calls[|calls| - 1]) == Failed
  {
    rc, calls := 0, [];
    var delim := 0;
    var more := true;
    ghost var seen := 0;
    while more
      invariant delim <= |dir| && seen <= |dir| + 1
      invariant calls == MkdirTargets(dir, seen)
      invariant forall i :: 0 <= i < |calls| ==> mkdir(calls[i]) != Failed
      invariant more ==> seen <= delim || seen == delim == 0
      invariant more ==> forall k :: seen <= k < delim ==> !IsMkdirPoint(dir, k)
      invariant more ==> 0 < delim < |dir| ==> dir[delim] == '/'
      invariant !more ==> seen == |dir| + 1
      decreases |dir| - delim, more
    {
      var cur := SkipOver(dir, delim, '/');
      var next := SkipTo(dir, cur, '/');
      assert forall k :: delim <= k < cur ==> dir[k] == '/';
      MkdirTargetsSkip(dir, seen, cur);
      assert cur > 0 ==> IsMkdirPoint(dir, cur);
      var name := dir[..cur];
      seen := cur + 1;
      if name != [] {
        calls := calls + [name];
        if mkdir(name) == Failed {
          rc := -1;
          MkdirTargetsMonotone(dir, seen, |dir| + 1);
          return;
        }
      }
      more := cur != next;
      delim := next;
    }
  }

  // ---------------------------------------------------------------------
  // File helpers used by the signing pipeline
  // ---------------------------------------------------------------------

  /** libsign_utils_file_exists as written: for a NULL path it returns
      EXIT_FAILURE, which converts to the bool `true`. */
  function FileExistsAsWritten(path: Option<string>, readable: string -> bool): (r: bool)
    ensures path.Some? ==> (r <==> readable(path.value))
    ensures path.None? ==> r
  {
    if path.None? then true else readable(path.value)
  }

  /** The evidently intended check: a NULL path does not name an existing file. */
  function FileExists(path: Option<string>, readable: string -> bool): (r: bool)
    ensures r <==> path.Some? && readable(path.value)
  {
    path.Some? && readable(path.value)
  }

  /** The two agree on every real path and differ on NULL only. */
  lemma FileExistsNullDiscrepancy(readable: string -> bool)
    ensures FileExistsAsWritten(None, readable) && !FileExists(None, readable)
    ensures forall p: string :: FileExistsAsWritten(Some(p), readable) == FileExists(Some(p), readable)
  {
  }

  /** What reading a file can find: no file to open, a file that cannot be
      sized or read, or its contents. */
  datatype FileState = Missing | Unreadable | Contents(bytes: seq<byte>)

  /** libsign_utils_load_file: fails on a NULL or empty path, a NULL output
      buffer or size pointer, a file it cannot open or read, and an empty
      file; otherwise it hands back the whole file. */
  function LoadFile(path: Option<string>, hasBuf: bool, hasSize: bool, fs: string -> FileState): (r: Option<seq<byte>>)
    ensures r.Some? <==>
      path.Some? && path.value != [] && hasBuf && hasSize &&
      fs(path.value).Contents? && |fs(path.value).bytes| > 0
    ensures r.Some? ==> r.value == fs(path.value).bytes && |r.value| > 0
  {
    if path.None? || path.value == [] then None
    else if !hasBuf || !hasSize then None
    else match fs(path.value)
      case Contents(b) => if |b| == 0 then None else Some(b)
      case _ => None
  }

  /** libsign_utils_save_file: the file must open for writing and a single
      fwrite of the whole buffer must store one item. fwrite stores no item
      for a zero-length buffer, so an empty buffer fails as well. */
  function SaveFile(path: string, buf: seq<byte>, creates: string -> bool, writes: (string, seq<byte>) -> bool): (r: int)
    ensures r == 0 <==> creates(path) && |buf| > 0 && writes(path, buf)
    ensures r == 0 || r == 1
  {
    if !creates(path) then 1
    else if |buf| == 0 || !writes(path, buf) then 1
    else 0
  }
}
