/** The shell's lexical path normaliser and why it agrees with the inode walk (kernel/src/shell.rs). */
module PathNames {
  import opened Prelude
  import opened InodeForest
  import opened Resolution

  const PATH_MAX: nat := 256

  // Paths as strings.

  function Back(s: Bytes): Bytes {
    if |s| > 1 && s[|s| - 1] != SLASH then Back(s[..|s| - 1]) else s
  }

  /** What `..` does to the output: drop one byte, then back up to a slash. */
  function PopName(s: Bytes): Bytes {
    if |s| > 1 then Back(s[..|s| - 1]) else s
  }

  /** What any other component does: a slash if one is missing, then the component. */
  function PushName(s: Bytes, part: Bytes): Bytes {
    (if |s| > 1 && s[|s| - 1] != SLASH then s + [SLASH] else s) + part
  }

  function StringStep(s: Bytes, part: Bytes): Bytes {
    if part == DOT_DOT then PopName(s) else PushName(s, part)
  }

  /** The output after all components, with room for any length. */
  function StringWalk(s: Bytes, parts: seq<Bytes>): Bytes {
    if parts == [] then s else StringStep(StringWalk(s, parts[..|parts| - 1]), parts[|parts| - 1])
  }

  /** No prefix of the components overflows the output buffer. */
  predicate Fits(s: Bytes, parts: seq<Bytes>) {
    |StringWalk(s, parts)| <= PATH_MAX && (parts != [] ==> Fits(s, parts[..|parts| - 1]))
  }

  // Paths as stacks of names.

  function StackStep(stack: seq<Bytes>, part: Bytes): seq<Bytes> {
    if part != DOT_DOT then stack + [part]
    else if stack == [] then [] else stack[..|stack| - 1]
  }

  function StackWalk(stack: seq<Bytes>, parts: seq<Bytes>): seq<Bytes> {
    if parts == [] then stack else StackStep(StackWalk(stack, parts[..|parts| - 1]), parts[|parts| - 1])
  }

  /** "/" and every name of the stack, each followed by a slash. */
  function Slashed(stack: seq<Bytes>): Bytes {
    if stack == [] then [SLASH] else Slashed(stack[..|stack| - 1]) + stack[|stack| - 1] + [SLASH]
  }

  function Plain(stack: seq<Bytes>): Bytes {
    if stack == [] then [SLASH] else Slashed(stack[..|stack| - 1]) + stack[|stack| - 1]
  }

  /** The normal forms of a stack: with and without the trailing slash that `..` leaves behind. */
  ghost predicate NormalForm(s: Bytes, stack: seq<Bytes>) {
    (s == Plain(stack) || s == Slashed(stack)) && forall i :: 0 <= i < |stack| ==> IsName(stack[i])
  }

  lemma {:induction false} BackStops(s: Bytes, name: Bytes)
    requires s != [] && s[|s| - 1] == SLASH && forall i :: 0 <= i < |name| ==> name[i] != SLASH
    ensures Back(s + name) == s
  {
    if name == [] {
      assert s + name == s;
    } else {
      var n := |name| - 1;
      BackStops(s, name[..n]);
      assert (s + name)[..|s + name| - 1] == s + name[..n];
    }
  }

  lemma SlashedEnds(stack: seq<Bytes>)
    ensures Slashed(stack) != [] && Slashed(stack)[|Slashed(stack)| - 1] == SLASH && Slashed(stack)[0] == SLASH
  {
    if stack != [] {
      SlashedEnds(stack[..|stack| - 1]);
    }
  }

  lemma PopPlain(stack: seq<Bytes>)
    requires stack != [] && forall i :: 0 <= i < |stack| ==> IsName(stack[i])
    ensures PopName(Plain(stack)) == Slashed(stack[..|stack| - 1])
  {
    var below, top := stack[..|stack| - 1], stack[|stack| - 1];
    assert IsName(top);
    SlashedEnds(below);
    var s := Slashed(below) + top;
    assert s[..|s| - 1] == Slashed(below) + top[..|top| - 1];
    BackStops(Slashed(below), top[..|top| - 1]);
  }

  lemma PopSlashed(stack: seq<Bytes>)
    requires stack != [] && forall i :: 0 <= i < |stack| ==> IsName(stack[i])
    ensures PopName(Slashed(stack)) == Slashed(stack[..|stack| - 1])
  {
    var below, top := stack[..|stack| - 1], stack[|stack| - 1];
    assert IsName(top);
    SlashedEnds(below);
    var s := Slashed(below) + top;
    assert (s + [SLASH])[..|s + [SLASH]| - 1] == s;
    BackStops(Slashed(below), top);
  }

  lemma PushAgrees(s: Bytes, stack: seq<Bytes>, part: Bytes)
    requires NormalForm(s, stack)
    ensures PushName(s, part) == Plain(stack + [part])
  {
    SlashedEnds(stack);
    assert (stack + [part])[..|stack|] == stack;
    if stack != [] && s == Plain(stack) {
      var top := stack[|stack| - 1];
      assert IsName(top);
      assert s[|s| - 1] == top[|top| - 1];
      assert s + [SLASH] == Slashed(stack);
    }
  }

  /** One component keeps the output a normal form of the stack. */
  lemma StepsAgree(s: Bytes, stack: seq<Bytes>, part: Bytes)
    requires NormalForm(s, stack) && (part == DOT_DOT || IsName(part))
    ensures NormalForm(StringStep(s, part), StackStep(stack, part))
  {
    if part != DOT_DOT {
      PushAgrees(s, stack, part);
    } else if stack != [] {
      PopPlain(stack);
      PopSlashed(stack);
    }
  }

  lemma {:induction false} WalksAgree(s: Bytes, stack: seq<Bytes>, parts: seq<Bytes>)
    requires NormalForm(s, stack) && Components(parts)
    ensures NormalForm(StringWalk(s, parts), StackWalk(stack, parts))
  {
    if parts != [] {
      var n := |parts| - 1;
      WalksAgree(s, stack, parts[..n]);
      StepsAgree(StringWalk(s, parts[..n]), StackWalk(stack, parts[..n]), parts[n]);
    }
  }

  lemma RootHasNoParts()
    ensures Parts([SLASH]) == [] && Parts([]) == []
  {
  }

  /** A normal form splits into its stack. */
  lemma {:induction false} NormalFormParts(stack: seq<Bytes>)
    requires forall i :: 0 <= i < |stack| ==> IsName(stack[i])
    ensures Parts(Slashed(stack)) == stack && Parts(Plain(stack)) == stack
  {
    hide Parts, IsName;
    RootHasNoParts();
    if stack != [] {
      var below, top := stack[..|stack| - 1], stack[|stack| - 1];
      NormalFormParts(below);
      SlashedEnds(below);
      PartsOfName(top);
      PartsAfterSlash(Slashed(below), top);
      PartsAfterSlash(Slashed(below), top + [SLASH]);
      assert Slashed(stack) == Slashed(below) + (top + [SLASH]);
    }
  }

  // The physical walk.

  /** The stack names a path from the root to `cur`. */
  ghost predicate LeadsTo(t: Table, kids: map<nat, seq<nat>>, stack: seq<Bytes>, cur: nat) {
    ResolveParts(t, kids, stack, ROOT_INODE) == Ok(cur) && forall i :: 0 <= i < |stack| ==> IsName(stack[i])
  }

  /** The inode above the end of a path is the end of the path without its last name. */
  lemma ParentOfPath(t: Table, kids: map<nat, seq<nat>>, rank: map<nat, nat>, stack: seq<Bytes>, cur: nat)
    requires Forest(t, kids, rank) && LeadsTo(t, kids, stack, cur) && stack != []
    ensures Live(t, cur) && t[cur].parent != 0 && LeadsTo(t, kids, stack[..|stack| - 1], t[cur].parent)
  {
    var below, top := stack[..|stack| - 1], stack[|stack| - 1];
    assert IsName(top) && below + [top] == stack;
    ResolveConcat(t, kids, below, [top], ROOT_INODE);
    var d := ResolveParts(t, kids, below, ROOT_INODE).value;
    assert ResolveParts(t, kids, [top], d) == ResolvePart(t, kids, top, d);
    LookupFinds(t, kids[d], top);
    ListIsExact(t, kids, rank, d, cur);
  }

  /** One component moves the stack and the inode together. */
  lemma WalksTogether(t: Table, kids: map<nat, seq<nat>>, rank: map<nat, nat>, stack: seq<Bytes>, cur: nat, part: Bytes)
    requires Forest(t, kids, rank) && LeadsTo(t, kids, stack, cur) && (part == DOT_DOT || IsName(part))
    requires ResolvePart(t, kids, part, cur).Ok?
    ensures LeadsTo(t, kids, StackStep(stack, part), ResolvePart(t, kids, part, cur).value)
  {
    if part != DOT_DOT {
      ResolveConcat(t, kids, stack, [part], ROOT_INODE);
    } else if stack != [] {
      ParentOfPath(t, kids, rank, stack, cur);
    }
  }

  lemma {:induction false} ResolveFollowsStack(t: Table, kids: map<nat, seq<nat>>, rank: map<nat, nat>,
                                               stack: seq<Bytes>, cur: nat, parts: seq<Bytes>)
    requires Forest(t, kids, rank) && LeadsTo(t, kids, stack, cur) && Components(parts)
    requires ResolveParts(t, kids, parts, cur).Ok?
    ensures LeadsTo(t, kids, StackWalk(stack, parts), ResolveParts(t, kids, parts, cur).value)
  {
    if parts != [] {
      var n := |parts| - 1;
      assert parts[..n] + [parts[n]] == parts;
      ResolveConcat(t, kids, parts[..n], [parts[n]], cur);
      ResolveFollowsStack(t, kids, rank, stack, cur, parts[..n]);
      var next := ResolveParts(t, kids, parts[..n], cur).value;
      assert ResolveParts(t, kids, [parts[n]], next) == ResolvePart(t, kids, parts[n], next);
      WalksTogether(t, kids, rank, StackWalk(stack, parts[..n]), next, parts[n]);
    }
  }

  /** The starting output of the normaliser. */
  function Start(cwdPath: Bytes, input: Bytes): Bytes {
    if input != [] && input[0] == SLASH then [SLASH] else cwdPath
  }

  /**
   Lexical and physical resolution agree: if `cwdPath`, in normal form, names the current directory, and
   a non-empty input resolves from there, then the normalised path resolves from the root to the same inode.
   */
  lemma NormalisedPathAgrees(t: Table, kids: map<nat, seq<nat>>, rank: map<nat, nat>,
                             cwdPath: Bytes, stack: seq<Bytes>, cwd: nat, input: Bytes, i: nat)
    requires Forest(t, kids, rank)
    requires NormalForm(cwdPath, stack) && Resolve(t, kids, cwdPath, ROOT_INODE) == Ok(cwd)
    requires input != [] && Resolve(t, kids, input, cwd) == Ok(i)
    ensures var out := StringWalk(Start(cwdPath, input), Parts(input));
            && Resolve(t, kids, out, ROOT_INODE) == Ok(i)
            && exists stack' :: NormalForm(out, stack')
  {
    NormalFormParts(stack);
    SlashedEnds(stack);
    PartsAreComponents(input);
    var stack0, cur0 := if input[0] == SLASH then [] else stack, if input[0] == SLASH then ROOT_INODE else cwd;
    var parts := Parts(input);
    assert NormalForm(Start(cwdPath, input), stack0);
    assert LeadsTo(t, kids, stack0, cur0);
    WalksAgree(Start(cwdPath, input), stack0, parts);
    ResolveFollowsStack(t, kids, rank, stack0, cur0, parts);
    var end := StackWalk(stack0, parts);
    var out := StringWalk(Start(cwdPath, input), parts);
    assert NormalForm(out, end);
    NormalFormParts(end);
    SlashedEnds(end);
  }

  // The normaliser itself.

  /** As much of a path as the output buffer holds. */
  function Cut(s: Bytes): Bytes {
    if |s| > PATH_MAX then s[..PATH_MAX] else s
  }

  /** The output after all components, each result cut to the buffer. */
  function CutWalk(s: Bytes, parts: seq<Bytes>): Bytes {
    if parts == [] then s else Cut(StringStep(CutWalk(s, parts[..|parts| - 1]), parts[|parts| - 1]))
  }

  /** What `normalize_path` writes. */
  function Normalized(cwd: Bytes, input: Bytes): Bytes {
    var walked := CutWalk(Cut(Start(cwd, input)), Parts(input));
    if walked == [] then [SLASH] else walked
  }

  /** Nothing is cut as long as no intermediate path outgrows the buffer. */
  lemma {:induction false} NothingIsCut(s: Bytes, parts: seq<Bytes>)
    requires Fits(s, parts)
    ensures CutWalk(s, parts) == StringWalk(s, parts)
  {
    if parts != [] {
      NothingIsCut(s, parts[..|parts| - 1]);
    }
  }

  lemma {:induction false} FitsFromTheStart(s: Bytes, parts: seq<Bytes>)
    requires Fits(s, parts)
    ensures |s| <= PATH_MAX
  {
    if parts != [] {
      FitsFromTheStart(s, parts[..|parts| - 1]);
    }
  }

  /**
   What `normalize_path` writes leads from the root to the inode the input leads to from the current directory, as
   long as no intermediate path outgrows the buffer.
   */
  lemma NormalizedAgrees(t: Table, kids: map<nat, seq<nat>>, rank: map<nat, nat>,
                         cwdPath: Bytes, stack: seq<Bytes>, cwd: nat, input: Bytes, i: nat)
    requires Forest(t, kids, rank)
    requires NormalForm(cwdPath, stack) && Resolve(t, kids, cwdPath, ROOT_INODE) == Ok(cwd)
    requires input != [] && Resolve(t, kids, input, cwd) == Ok(i) && Fits(Start(cwdPath, input), Parts(input))
    ensures Resolve(t, kids, Normalized(cwdPath, input), ROOT_INODE) == Ok(i)
    ensures exists stack' :: NormalForm(Normalized(cwdPath, input), stack')
  {
    hide Resolve, Forest, Parts, CutWalk, StringWalk, Fits;
    NormalisedPathAgrees(t, kids, rank, cwdPath, stack, cwd, input, i);
    FitsFromTheStart(Start(cwdPath, input), Parts(input));
    NothingIsCut(Start(cwdPath, input), Parts(input));
  }

  /** What the code writes for `..`, in place. */
  method PopInPlace(out: array<Byte>, len: nat) returns (len': nat)
    requires len <= out.Length
    ensures len' <= len && out[..len'] == PopName(out[..len])
  {
    len' := len;
    if len' > 1 {
      len' := len' - 1;
      assert out[..len][..len'] == out[..len'];
      while len' > 1 && out[len' - 1] != SLASH
        invariant len' < len && Back(out[..len']) == PopName(out[..len])
      {
        assert out[..len'][..len' - 1] == out[..len' - 1];
        len' := len' - 1;
      }
    }
  }

  /** What the code writes for a name, cut at the end of the buffer. */
  method PushInPlace(out: array<Byte>, len: nat, part: Bytes) returns (len': nat)
    requires out.Length == PATH_MAX && len <= PATH_MAX
    modifies out
    ensures len' <= PATH_MAX
    ensures out[..len'] == Cut(PushName(old(out[..len]), part))
  {
    ghost var head := out[..len];
    len' := len;
    if len' > 1 && out[len' - 1] != SLASH {
      if len' < PATH_MAX {
        out[len'] := SLASH;
        len' := len' + 1;
        head := head + [SLASH];
      }
    }
    assert out[..len'] == head;
    var from, copied := len', Min(|part|, PATH_MAX - len');
    forall k | 0 <= k < copied {
      out[from + k] := part[k];
    }
    len' := from + copied;
    assert out[..len'] == head + part[..copied];
  }

  /** The two scanning loops: past slashes to the next component, and to its end. */
  method NextComponent(input: Bytes, i: nat) returns (from: nat, to: nat)
    requires i <= |input|
    ensures i <= from <= to <= |input| && (from == to ==> from == |input|)
    ensures Parts(input[i..]) ==
              if from == |input| then []
              else (if input[from..to] == DOT then [] else [input[from..to]]) + Parts(input[to..])
  {
    from := i;
    while from < |input| && input[from] == SLASH
      invariant i <= from <= |input| && Parts(input[from..]) == Parts(input[i..])
    {
      assert input[from..][1..] == input[from + 1..];
      from := from + 1;
    }
    to := from;
    while to < |input| && input[to] != SLASH
      invariant from <= to <= |input| && forall k :: from <= k < to ==> input[k] != SLASH
    {
      to := to + 1;
    }
    NameLengthIs(input[from..], to - from);
    assert input[from..][..to - from] == input[from..to] && input[from..][to - from..] == input[to..];
    assert from == |input| ==> input[from..] == [];
  }

  method ApplyComponent(out: array<Byte>, len: nat, part: Bytes) returns (len': nat)
    requires out.Length == PATH_MAX && len <= PATH_MAX
    modifies out
    ensures len' <= PATH_MAX
    ensures out[..len'] == Cut(StringStep(old(out[..len]), part))
  {
    if part == DOT_DOT {
      len' := PopInPlace(out, len);
    } else {
      len' := PushInPlace(out, len, part);
    }
  }

  lemma CutNext(s: Bytes, done: seq<Bytes>, part: Bytes)
    ensures CutWalk(s, done + [part]) == Cut(StringStep(CutWalk(s, done), part))
  {
    assert (done + [part])[..|done|] == done;
  }

  /** `normalize_path`; `NormalizedAgrees` says what it writes means. */
  method NormalizePath(cwd: Bytes, input: Bytes, out: array<Byte>) returns (len: nat)
    requires out.Length == PATH_MAX
    modifies out
    ensures len <= PATH_MAX && out[..len] == Normalized(cwd, input)
  {
    ghost var all, start := Parts(input), Cut(Start(cwd, input));
    if input != [] && input[0] == SLASH {
      out[0] := SLASH;
      len := 1;
    } else {
      len := Min(|cwd|, PATH_MAX);
      forall k | 0 <= k < len {
        out[k] := cwd[k];
      }
    }
    assert out[..len] == start && CutWalk(start, []) == start;
    hide Parts, StringStep, CutWalk, Start, Cut;
    var i := 0;
    ghost var done: seq<Bytes>, rest := [], all;
    assert input[0..] == input;
    while i < |input|
      invariant i <= |input| && len <= PATH_MAX
      invariant rest == Parts(input[i..]) && done + rest == all
      invariant out[..len] == CutWalk(start, done)
    {
      var from, to := NextComponent(input, i);
      if from >= |input| {
        i := |input|;
        NoParts(input[i..]);
        break;
      }
      i := to;
      if input[from..to] == DOT {
        continue;
      }
      assert done + [rest[0]] + rest[1..] == done + rest;
      rest := rest[1..];
      CutNext(start, done, input[from..to]);
      done := done + [input[from..to]];
      len := ApplyComponent(out, len, input[from..to]);
    }
    NoParts(input[i..]);
    assert done == all;
    if len == 0 {
      out[0] := SLASH;
      len := 1;
    }
  }
}
