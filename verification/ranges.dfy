/** Compiled version ranges: the satisfaction test `a` and the printer `o`
    of remoteEntry.71fdd4ee54dea9240f59.js.

    The build step compiles a range such as `^3.2.8` into an array. A leaf
    `[k, v1, .., vm]` holds a prefix count `k` and version tokens: `k >= 0`
    asks for the first `k` tokens to be equal and the version to be at least
    `v1..vm`; a negative `k` asks for the first `-k-1` tokens to be equal and
    the version to be below `v1..vm`. A composite (index 0 left empty) is a
    postfix program over sub-ranges: `0` negates, `1` is "or", `2` is "and". */
module Ranges {
  import opened Text
  import opened Results
  import opened Version

  datatype Range = Leaf(prefix: int, tokens: seq<Token>) | Composite(program: seq<Op>)

  /** One element of a composite: `0`, `1`, `2`, or a nested range array. */
  datatype Op = Not | Or | And | Sub(range: Range)

  /** How many leading tokens a leaf fixes: `k`, or `-k-1` for a negative `k`. */
  function FixedCount(prefix: int): nat {
    if prefix < 0 then -prefix - 1 else prefix
  }

  /** The loop `for(i=0,l=1,u=true;;l++,i++)` of `a` on a leaf. `i` walks the
      version, `l` walks the range array (token `l` is `toks[l - 1]`), and `u`
      says the version has agreed with the range so far. */
  predicate LeafLoop(v: Version, toks: seq<Token>, fixed: nat, neg: bool, i: nat, l: nat, u: bool)
    requires l >= 1
    decreases |v| - i
  {
    // `d`: the kind of range token `l`, `None` standing for "" past the end
    var d: Option<Kind> := if l - 1 < |toks| then Some(KindOf(toks[l - 1])) else None;
    if i >= |v| || KindOf(v[i]) == KObject then
      !u || (if d == Some(KUndefined) then l > fixed && !neg else d.None? != neg)
    else
      var s := v[i];
      var f := KindOf(s);
      if f == KUndefined then
        if !u || d != Some(KUndefined) then false
        else LeafLoop(v, toks, fixed, neg, i + 1, l + 1, u)
      else if u then
        if d == Some(f) then
          var e := toks[l - 1];
          if l <= fixed then
            if s != e then false else LeafLoop(v, toks, fixed, neg, i + 1, l + 1, u)
          else if (if neg then ValueLt(e, s) else ValueLt(s, e)) then false
          else LeafLoop(v, toks, fixed, neg, i + 1, l + 1, s == e)
        else if d != Some(KString) && d != Some(KNumber) then
          if neg || l <= fixed then false
          else LeafLoop(v, toks, fixed, neg, i + 1, l, false)
        else
          // `f<d!=o`: of the two kinds "number" and "string", `f<d` holds when f is the number
          if l <= fixed || ((f == KNumber) != neg) then false
          else LeafLoop(v, toks, fixed, neg, i + 1, l + 1, false)
      else if d != Some(KString) && d != Some(KNumber) then
        LeafLoop(v, toks, fixed, neg, i + 1, l, false)
      else
        LeafLoop(v, toks, fixed, neg, i + 1, l + 1, false)
  }

  /** `pop` on the evaluation stack: an empty stack yields `undefined`,
      which every later use treats as false. */
  function Top(stack: seq<bool>): bool {
    if |stack| == 0 then false else stack[|stack| - 1]
  }

  function Pop<T>(stack: seq<T>): seq<T> {
    if |stack| == 0 then [] else stack[..|stack| - 1]
  }

  /** `a(range, version)` on a parsed version. */
  predicate Satisfies(r: Range, v: Version)
    decreases r, 1
  {
    match r
    case Leaf(k, toks) => LeafLoop(v, toks, FixedCount(k), k < 0, 0, 1, true)
    case Composite(_) => Top(RunProgram(r, v, 0, []))
  }

  /** The postfix loop of `a` on a composite, from element `i` on: the
      stack it leaves, whose top `!!p()` returns. */
  function RunProgram(r: Range, v: Version, i: nat, stack: seq<bool>): seq<bool>
    requires r.Composite?
    decreases r, 0, |r.program| - i
  {
    if i >= |r.program| then stack
    else
      match r.program[i]
      case Not => RunProgram(r, v, i + 1, Pop(stack) + [!Top(stack)])
      case Or => RunProgram(r, v, i + 1, Pop(Pop(stack)) + [Top(stack) || Top(Pop(stack))])
      case And => RunProgram(r, v, i + 1, Pop(Pop(stack)) + [Top(stack) && Top(Pop(stack))])
      case Sub(x) =>
        assert r.program[i] in r.program;
        RunProgram(r, v, i + 1, stack + [Satisfies(x, v)])
  }

  /** Whether evaluating the range reaches a leaf, the only place where
      the version string gets parsed. */
  predicate HasLeaf(r: Range)
    decreases r, 1
  {
    match r
    case Leaf(_, _) => true
    case Composite(_) => ProgramHasLeaf(r, 0)
  }

  predicate ProgramHasLeaf(r: Range, i: nat)
    requires r.Composite?
    decreases r, 0, |r.program| - i
  {
    if i >= |r.program| then false
    else
      (r.program[i].Sub? && (assert r.program[i] in r.program; HasLeaf(r.program[i].range)))
      || ProgramHasLeaf(r, i + 1)
  }

  /** `a(range, versionString)`: a leaf parses the string, so a string the
      version pattern rejects raises a TypeError as soon as a leaf is met. */
  function SatisfiesText(r: Range, s: string): (res: Result<bool>)
    ensures Parse(s).Some? ==> res == Success(Satisfies(r, Parse(s).value))
    ensures res.Failure? <==> HasLeaf(r) && Parse(s).None?
  {
    if HasLeaf(r) && Parse(s).None? then Failure(TypeError)
    else Success(Satisfies(r, Parse(s).GetOr([])))
  }

  // ---------------------------------------------------------------------
  // Leaves against the version order

  predicate AllPlain(v: Version) {
    forall i :: 0 <= i < |v| ==> Plain(v[i])
  }

  /** The fixed tokens of a leaf agree with the version, where it has them. */
  predicate PrefixAgrees(v: Version, toks: seq<Token>, fixed: nat, from: nat) {
    forall j :: from <= j < fixed && j < |v| ==> j < |toks| && v[j] == toks[j]
  }

  /** Once the version has left the range behind (`u` false), a version
      of numbers and strings is accepted. */
  lemma {:induction false} DecidedAccepts(v: Version, toks: seq<Token>, fixed: nat, neg: bool, i: nat, l: nat)
    requires l >= 1 && AllPlain(v)
    ensures LeafLoop(v, toks, fixed, neg, i, l, false)
    decreases |v| - i
  {
    if i < |v| {
      var d: Option<Kind> := if l - 1 < |toks| then Some(KindOf(toks[l - 1])) else None;
      if d != Some(KString) && d != Some(KNumber) {
        DecidedAccepts(v, toks, fixed, neg, i + 1, l);
      } else {
        DecidedAccepts(v, toks, fixed, neg, i + 1, l + 1);
      }
    }
  }

  /** Numbers and strings of one kind are totally ordered by `<`. */
  lemma ValueOrder(a: Token, b: Token)
    requires Plain(a) && KindOf(a) == KindOf(b)
    ensures a == b ==> !ValueLt(a, b)
    ensures a != b ==> (ValueLt(a, b) <==> !ValueLt(b, a))
  {
    if a.Str? {
      StrLtIrreflexive(a.s);
      if a != b {
        StrLtConnected(a.s, b.s);
        if StrLt(a.s, b.s) && StrLt(b.s, a.s) {
          StrLtTransitive(a.s, b.s, a.s);
        }
      }
    }
  }

  lemma {:induction false} LeafLoopMatchesOrder(v: Version, toks: seq<Token>, fixed: nat, neg: bool, i: nat)
    requires AllPlain(v) && AllPlain(toks) && fixed <= |toks|
    ensures LeafLoop(v, toks, fixed, neg, i, i + 1, true)
        <==> PrefixAgrees(v, toks, fixed, i) && (LtFrom(v, toks, i) == neg)
    decreases |v| - i
  {
    if i < |v| {
      var s := v[i];
      if i < |toks| && KindOf(toks[i]) == KindOf(s) {
        var e := toks[i];
        ValueOrder(s, e);
        if i + 1 <= fixed || s == e {
          LeafLoopMatchesOrder(v, toks, fixed, neg, i + 1);
        } else {
          DecidedAccepts(v, toks, fixed, neg, i + 1, i + 2);
        }
      } else if i >= |toks| {
        if !neg {
          DecidedAccepts(v, toks, fixed, neg, i + 1, i + 1);
        }
      } else {
        if i + 1 > fixed && (KindOf(s) == KNumber) == neg {
          DecidedAccepts(v, toks, fixed, neg, i + 1, i + 2);
        }
      }
    }
  }

  /** On release versions (numbers and strings only) a well-formed leaf is
      exactly the order of `versionLt`: the fixed tokens must agree, and the
      version must not be below the range's tokens (`k >= 0`) or must be
      below them (`k < 0`). */
  lemma LeafMatchesOrder(k: int, toks: seq<Token>, v: Version)
    requires AllPlain(v) && AllPlain(toks) && FixedCount(k) <= |toks|
    ensures Satisfies(Leaf(k, toks), v)
        <==> PrefixAgrees(v, toks, FixedCount(k), 0) && (Lt(v, toks) == (k < 0))
  {
    LeafLoopMatchesOrder(v, toks, FixedCount(k), k < 0, 0);
  }

  /** `a` on a version string against a leaf compiled from a version
      string `b` is `versionLt` on the two strings: a lower bound (`k >= 0`)
      accepts exactly the strings not below `b`, an upper bound exactly
      those below it, provided the fixed prefix agrees. */
  lemma SatisfiesTextByVersionLt(k: int, s: string, b: string)
    requires Parse(s).Some? && Parse(b).Some?
    requires AllPlain(Parse(s).value) && AllPlain(Parse(b).value) && FixedCount(k) <= |Parse(b).value|
    ensures SatisfiesText(Leaf(k, Parse(b).value), s)
         == Success(PrefixAgrees(Parse(s).value, Parse(b).value, FixedCount(k), 0) && (VersionLt(s, b) == Success(k < 0)))
  {
    LeafMatchesOrder(k, Parse(b).value, Parse(s).value);
  }

  // ---------------------------------------------------------------------
  // Pre-release versions and build metadata

  /** A version that has moved away from the range fails at its hole. */
  lemma {:induction false} DecidedRejectsHole(v: Version, toks: seq<Token>, fixed: nat, neg: bool, i: nat, l: nat, h: nat)
    requires l >= 1 && i <= h < |v| && v[h] == Hole
    requires forall j :: i <= j < h ==> Plain(v[j])
    ensures !LeafLoop(v, toks, fixed, neg, i, l, false)
    decreases |v| - i
  {
    if i < h {
      var d: Option<Kind> := if l - 1 < |toks| then Some(KindOf(toks[l - 1])) else None;
      if d != Some(KString) && d != Some(KNumber) {
        DecidedRejectsHole(v, toks, fixed, neg, i + 1, l, h);
      } else {
        DecidedRejectsHole(v, toks, fixed, neg, i + 1, l + 1, h);
      }
    }
  }

  lemma {:induction false} LoopHoleNeedsSameRelease(v: Version, toks: seq<Token>, fixed: nat, neg: bool, i: nat, h: nat)
    requires i <= h < |v| && v[h] == Hole
    requires forall j :: i <= j < h ==> Plain(v[j])
    requires LeafLoop(v, toks, fixed, neg, i, i + 1, true)
    ensures h < |toks| && toks[h] == Hole
    ensures forall j :: i <= j < h ==> v[j] == toks[j]
    decreases h - i
  {
    if i < h {
      var s := v[i];
      var d: Option<Kind> := if i < |toks| then Some(KindOf(toks[i])) else None;
      if d == Some(KindOf(s)) {
        if i + 1 <= fixed || s == toks[i] {
          LoopHoleNeedsSameRelease(v, toks, fixed, neg, i + 1, h);
        } else {
          DecidedRejectsHole(v, toks, fixed, neg, i + 1, i + 2, h);
        }
      } else if d != Some(KString) && d != Some(KNumber) {
        DecidedRejectsHole(v, toks, fixed, neg, i + 1, i + 1, h);
      } else {
        DecidedRejectsHole(v, toks, fixed, neg, i + 1, i + 2, h);
      }
    }
  }

  /** A pre-release version satisfies a leaf only if the leaf carries a
      pre-release marker at the same place and the release tokens before it
      are the same. */
  lemma PreReleaseNeedsSameRelease(k: int, toks: seq<Token>, v: Version, h: nat)
    requires h < |v| && v[h] == Hole
    requires forall j :: 0 <= j < h ==> Plain(v[j])
    requires Satisfies(Leaf(k, toks), v)
    ensures h < |toks| && toks[h] == Hole
    ensures v[..h] == toks[..h]
  {
    LoopHoleNeedsSameRelease(v, toks, FixedCount(k), k < 0, 0, h);
  }

  lemma {:induction false} LoopStopsAtBuild(v: Version, toks: seq<Token>, fixed: nat, neg: bool, i: nat, l: nat, u: bool, b: nat)
    requires l >= 1 && i <= b < |v| && v[b] == Build
    ensures LeafLoop(v, toks, fixed, neg, i, l, u) == LeafLoop(v[..b], toks, fixed, neg, i, l, u)
    decreases b - i
  {
    if i < b && KindOf(v[i]) != KObject {
      assert v[..b][i] == v[i];
      LoopStopsAtBuild(v, toks, fixed, neg, i + 1, l + 1, u, b);
      LoopStopsAtBuild(v, toks, fixed, neg, i + 1, l, u, b);
      LoopStopsAtBuild(v, toks, fixed, neg, i + 1, l + 1, false, b);
      LoopStopsAtBuild(v, toks, fixed, neg, i + 1, l, false, b);
      if l - 1 < |toks| {
        LoopStopsAtBuild(v, toks, fixed, neg, i + 1, l + 1, v[i] == toks[l - 1], b);
      }
    } else if i < b {
      assert v[..b][i] == v[i];
    }
  }

  /** Build metadata never affects a leaf: the comparison ends at the `[]`
      marker as it ends at the end of the version. */
  lemma BuildEndsComparison(k: int, toks: seq<Token>, v: Version, b: nat)
    requires b < |v| && v[b] == Build
    ensures Satisfies(Leaf(k, toks), v) == Satisfies(Leaf(k, toks), v[..b])
  {
    LoopStopsAtBuild(v, toks, FixedCount(k), k < 0, 0, 1, true, b);
  }

  // ---------------------------------------------------------------------
  // Composites against a boolean expression tree

  /** The boolean expression a composite range encodes. */
  datatype Cond = Match(range: Range) | NotC(c: Cond) | OrC(left: Cond, right: Cond) | AndC(left: Cond, right: Cond)

  function Holds(c: Cond, v: Version): bool {
    match c
    case Match(r) => Satisfies(r, v)
    case NotC(x) => !Holds(x, v)
    case OrC(x, y) => Holds(x, v) || Holds(y, v)
    case AndC(x, y) => Holds(x, v) && Holds(y, v)
  }

  /** Postfix form of an expression, as the build step emits it. */
  function Compile(c: Cond): seq<Op> {
    match c
    case Match(r) => [Sub(r)]
    case NotC(x) => Compile(x) + [Not]
    case OrC(x, y) => Compile(x) + Compile(y) + [Or]
    case AndC(x, y) => Compile(x) + Compile(y) + [And]
  }

  lemma SubSlice<T>(s: seq<T>, i: nat, p: seq<T>, a: nat, b: nat)
    requires i + |p| <= |s| && s[i..i + |p|] == p && a <= b <= |p|
    ensures s[i + a..i + b] == p[a..b]
  {
    forall j | 0 <= j < b - a
      ensures s[i + a..i + b][j] == p[a..b][j]
    {
      assert s[i + a + j] == s[i..i + |p|][a + j];
    }
  }

  lemma RunStep(r: Range, v: Version, i: nat, stack: seq<bool>)
    requires r.Composite? && i < |r.program|
    ensures r.program[i].Not? ==> RunProgram(r, v, i, stack) == RunProgram(r, v, i + 1, Pop(stack) + [!Top(stack)])
    ensures r.program[i].Or? ==>
      RunProgram(r, v, i, stack) == RunProgram(r, v, i + 1, Pop(Pop(stack)) + [Top(stack) || Top(Pop(stack))])
    ensures r.program[i].And? ==>
      RunProgram(r, v, i, stack) == RunProgram(r, v, i + 1, Pop(Pop(stack)) + [Top(stack) && Top(Pop(stack))])
    ensures r.program[i].Sub? ==>
      RunProgram(r, v, i, stack) == RunProgram(r, v, i + 1, stack + [Satisfies(r.program[i].range, v)])
  {
  }

  lemma {:induction false} RunCompiled(r: Range, c: Cond, v: Version, i: nat, stack: seq<bool>)
    requires r.Composite?
    requires i + |Compile(c)| <= |r.program|
    requires r.program[i..i + |Compile(c)|] == Compile(c)
    ensures RunProgram(r, v, i, stack) == RunProgram(r, v, i + |Compile(c)|, stack + [Holds(c, v)])
    decreases c, 2
  {
    match c
    case Match(x) =>
      RunCompiledMatch(r, c, v, i, stack);
    case NotC(x) =>
      RunCompiledNot(r, c, v, i, stack);
    case OrC(x, y) =>
      RunCompiledBinary(r, c, v, i, stack);
    case AndC(x, y) =>
      RunCompiledBinary(r, c, v, i, stack);
  }

  lemma RunCompiledMatch(r: Range, c: Cond, v: Version, i: nat, stack: seq<bool>)
    requires r.Composite? && c.Match?
    requires i + |Compile(c)| <= |r.program|
    requires r.program[i..i + |Compile(c)|] == Compile(c)
    ensures RunProgram(r, v, i, stack) == RunProgram(r, v, i + |Compile(c)|, stack + [Holds(c, v)])
  {
    assert r.program[i] == Compile(c)[0] == Sub(c.range);
    RunStep(r, v, i, stack);
  }

  lemma {:induction false} RunCompiledNot(r: Range, c: Cond, v: Version, i: nat, stack: seq<bool>)
    requires r.Composite? && c.NotC?
    requires i + |Compile(c)| <= |r.program|
    requires r.program[i..i + |Compile(c)|] == Compile(c)
    ensures RunProgram(r, v, i, stack) == RunProgram(r, v, i + |Compile(c)|, stack + [Holds(c, v)])
    decreases c, 1
  {
    var p := Compile(c);
    var px := Compile(c.c);
    assert p == px + [Not];
    SubSlice(r.program, i, p, 0, |px|);
    assert p[0..|px|] == px;
    RunCompiled(r, c.c, v, i, stack);
    LastOfSlice(r.program, i, p);
    var st := stack + [Holds(c.c, v)];
    PushTop(stack, Holds(c.c, v));
    RunStep(r, v, i + |px|, st);
  }

  lemma {:induction false} RunCompiledBinary(r: Range, c: Cond, v: Version, i: nat, stack: seq<bool>)
    requires r.Composite? && (c.OrC? || c.AndC?)
    requires i + |Compile(c)| <= |r.program|
    requires r.program[i..i + |Compile(c)|] == Compile(c)
    ensures RunProgram(r, v, i, stack) == RunProgram(r, v, i + |Compile(c)|, stack + [Holds(c, v)])
    decreases c, 1
  {
    BinarySlices(r, c, i);
    RunCompiledPair(r, c, c.left, c.right, v, i, stack);
    LastOpOfBinary(r, c, i);
    BinaryStep(r, c, v, i + |Compile(c)| - 1, stack);
  }

  /** Running two compiled operands side by side pushes both results. */
  lemma {:induction false} RunCompiledPair(r: Range, c: Cond, x: Cond, y: Cond, v: Version, i: nat, stack: seq<bool>)
    requires r.Composite? && (c == OrC(x, y) || c == AndC(x, y))
    requires i + |Compile(x)| + |Compile(y)| <= |r.program|
    requires r.program[i..i + |Compile(x)|] == Compile(x)
    requires r.program[i + |Compile(x)|..i + |Compile(x)| + |Compile(y)|] == Compile(y)
    ensures RunProgram(r, v, i, stack)
      == RunProgram(r, v, i + |Compile(x)| + |Compile(y)|, stack + [Holds(x, v)] + [Holds(y, v)])
    decreases c, 0
  {
    var k := i + |Compile(x)|;
    var s1 := stack + [Holds(x, v)];
    assert RunProgram(r, v, i, stack) == RunProgram(r, v, k, s1) by {
      RunCompiled(r, x, v, i, stack);
    }
    assert RunProgram(r, v, k, s1) == RunProgram(r, v, k + |Compile(y)|, s1 + [Holds(y, v)]) by {
      RunCompiled(r, y, v, k, s1);
    }
  }

  /** The operands of a compiled "or"/"and" sit side by side in the program. */
  lemma BinarySlices(r: Range, c: Cond, i: nat)
    requires r.Composite? && (c.OrC? || c.AndC?)
    requires i + |Compile(c)| <= |r.program|
    requires r.program[i..i + |Compile(c)|] == Compile(c)
    ensures |Compile(c)| == |Compile(c.left)| + |Compile(c.right)| + 1
    ensures r.program[i..i + |Compile(c.left)|] == Compile(c.left)
    ensures r.program[i + |Compile(c.left)|..i + |Compile(c.left)| + |Compile(c.right)|] == Compile(c.right)
  {
    var op: Op := if c.OrC? then Or else And;
    assert Compile(c) == Compile(c.left) + Compile(c.right) + [op];
    ThreeParts(r.program, i, Compile(c.left), Compile(c.right), [op]);
  }

  /** A slice that spells `a + b + z` spells `a` and then `b`. */
  lemma ThreeParts<T>(s: seq<T>, i: nat, a: seq<T>, b: seq<T>, z: seq<T>)
    requires i + |a + b + z| <= |s| && s[i..i + |a + b + z|] == a + b + z
    ensures s[i..i + |a|] == a
    ensures s[i + |a|..i + |a| + |b|] == b
  {
    var p := a + b + z;
    SubSlice(s, i, p, 0, |a|);
    assert p[0..|a|] == a;
    SubSlice(s, i, p, |a|, |a| + |b|);
    assert p[|a|..|a| + |b|] == b;
  }

  /** Pushing then looking: the top is what was pushed, below it the old stack. */
  lemma PushTop(stack: seq<bool>, b: bool)
    ensures Pop(stack + [b]) == stack && Top(stack + [b]) == b
  {
  }

  /** The operator that ends a compiled "or"/"and" combines the two results. */
  lemma BinaryStep(r: Range, c: Cond, v: Version, j: nat, stack: seq<bool>)
    requires r.Composite? && (c.OrC? || c.AndC?)
    requires j < |r.program| && r.program[j] == if c.OrC? then Or else And
    ensures RunProgram(r, v, j, stack + [Holds(c.left, v)] + [Holds(c.right, v)])
      == RunProgram(r, v, j + 1, stack + [Holds(c, v)])
  {
    HoldsBinary(c, v);
    RunBinaryOp(r, v, j, stack, Holds(c.left, v), Holds(c.right, v), Holds(c, v));
  }

  /** An "or"/"and" holds as its two operands combine. */
  lemma HoldsBinary(c: Cond, v: Version)
    requires c.OrC? || c.AndC?
    ensures Holds(c, v) == if c.OrC? then Holds(c.left, v) || Holds(c.right, v) else Holds(c.left, v) && Holds(c.right, v)
  {
  }

  /** A compiled "or"/"and" ends with its operator. */
  lemma LastOpOfBinary(r: Range, c: Cond, i: nat)
    requires r.Composite? && (c.OrC? || c.AndC?)
    requires i + |Compile(c)| <= |r.program|
    requires r.program[i..i + |Compile(c)|] == Compile(c)
    ensures |Compile(c)| >= 1
    ensures r.program[i + |Compile(c)| - 1] == if c.OrC? then Or else And
  {
    var p := Compile(c);
    var op: Op := if c.OrC? then Or else And;
    assert p == Compile(c.left) + Compile(c.right) + [op];
    LastOfSlice(r.program, i, p);
  }

  /** The last element of a slice is the last element of what it spells. */
  lemma LastOfSlice<T>(s: seq<T>, i: nat, p: seq<T>)
    requires |p| >= 1 && i + |p| <= |s| && s[i..i + |p|] == p
    ensures s[i + |p| - 1] == p[|p| - 1]
  {
    assert s[i + |p| - 1] == s[i..i + |p|][|p| - 1];
  }

  /** One "or"/"and" step pops two results and pushes their combination. */
  lemma RunBinaryOp(r: Range, v: Version, j: nat, below: seq<bool>, a: bool, b: bool, x: bool)
    requires r.Composite? && j < |r.program| && (r.program[j].Or? || r.program[j].And?)
    requires x == if r.program[j].Or? then a || b else a && b
    ensures RunProgram(r, v, j, below + [a] + [b]) == RunProgram(r, v, j + 1, below + [x])
  {
    var st := below + [a] + [b];
    PushTop(below + [a], b);
    PushTop(below, a);
    assert Pop(Pop(st)) == below && Top(st) == b && Top(Pop(st)) == a;
    RunStep(r, v, j, st);
  }

  /** The postfix evaluation of a compiled expression is the expression:
      `0` negates, `1` is "or", `2` is "and", a nested array is its own test. */
  lemma CompositeMeansExpression(c: Cond, v: Version)
    ensures Satisfies(Composite(Compile(c)), v) == Holds(c, v)
  {
    var r := Composite(Compile(c));
    assert r.program[0..|Compile(c)|] == Compile(c);
    RunCompiled(r, c, v, 0, []);
  }

  // ---------------------------------------------------------------------
  // The printer `o`

  /** The operator `o` prints for a prefix count. */
  function OpText(k: int): string {
    if k == 0 then ">="
    else if k == -1 then "<"
    else if k == 1 then "^"
    else if k == 2 then "~"
    else if k > 0 then "="
    else "!="
  }

  /** `"" + token`: numbers in decimal, strings as they are, `[]` as "". */
  function TokenText(t: Token): string {
    match t
    case Num(n) => NatToString(n)
    case Str(s) => s
    case Build => ""
    case Hole => ""
  }

  /** The token loop of `o`: `n` counts down once per token, a hole prints
      `-`, and any other token is preceded by `.` when `n` is still positive
      and then sets `n` to 2. */
  function TokensText(toks: seq<Token>, n: int): string
    decreases |toks|
  {
    if |toks| == 0 then ""
    else if toks[0].Hole? then "-" + TokensText(toks[1..], n - 1)
    else (if n - 1 > 0 then "." else "") + TokenText(toks[0]) + TokensText(toks[1..], 2)
  }

  /** `.replace(/^\((.+)\)$/, "$1")`: one pair of enclosing parentheses is dropped. */
  function StripParens(s: string): string {
    if |s| >= 3 && s[0] == '(' && s[|s| - 1] == ')' && !HasLineTerminator(s[1..|s| - 1])
    then s[1..|s| - 1]
    else s
  }

  /** The helper `u` of `o`: pop and strip; popping an empty stack gives
      `undefined`, whose `replace` raises a TypeError. */
  function PopStripped(stack: seq<string>): Result<(string, seq<string>)> {
    if |stack| == 0 then Failure(TypeError)
    else Success((StripParens(stack[|stack| - 1]), stack[..|stack| - 1]))
  }

  /** A bare `i.pop()` concatenated into a string: `undefined` prints as such. */
  function PopText(stack: seq<string>): (string, seq<string>) {
    if |stack| == 0 then ("undefined", []) else (stack[|stack| - 1], stack[..|stack| - 1])
  }

  /** The printer `o`. */
  function Format(r: Range): (res: Result<string>)
    ensures res.Failure? ==> res.error == TypeError
    decreases r, 1
  {
    match r
    case Leaf(k, toks) =>
      if |toks| == 0 then Success("*") else Success(OpText(k) + TokensText(toks, 1))
    case Composite(prog) =>
      if |prog| == 0 then Success("*") else FormatProgram(r, 0, [])
  }

  function FormatProgram(r: Range, i: nat, stack: seq<string>): (res: Result<string>)
    requires r.Composite?
    ensures res.Failure? ==> res.error == TypeError
    decreases r, 0, |r.program| - i
  {
    if i >= |r.program| then
      var x :- PopStripped(stack);
      Success(x.0)
    else
      match r.program[i]
      case Not =>
        var x :- PopStripped(stack);
        FormatProgram(r, i + 1, x.1 + ["not(" + x.0 + ")"])
      case Or =>
        var x :- PopStripped(stack);
        var y :- PopStripped(x.1);
        FormatProgram(r, i + 1, y.1 + ["(" + x.0 + " || " + y.0 + ")"])
      case And =>
        var x := PopText(stack);
        var y := PopText(x.1);
        FormatProgram(r, i + 1, y.1 + [x.0 + " " + y.0])
      case Sub(sub) =>
        assert r.program[i] in r.program;
        var x :- Format(sub);
        FormatProgram(r, i + 1, stack + [x])
  }

  // ---------------------------------------------------------------------
  // Printing a leaf and parsing it back

  /** A token the printer writes so that the parser reads it back: a number,
      or a string that is not all digits and holds no `.`, `-` or `+`. */
  predicate Printable(t: Token) {
    t.Num? || (t.Str? && !AllDigits(t.s) && '.' !in t.s && '-' !in t.s && '+' !in t.s)
  }

  predicate AllPrintable(toks: seq<Token>) {
    forall i :: 0 <= i < |toks| ==> Printable(toks[i])
  }

  function Texts(toks: seq<Token>): (r: seq<string>)
    ensures |r| == |toks|
    ensures forall i :: 0 <= i < |r| ==> r[i] == TokenText(toks[i])
  {
    if |toks| == 0 then [] else [TokenText(toks[0])] + Texts(toks[1..])
  }

  lemma {:induction false} ReleaseText(rel: seq<Token>, n: int)
    requires |rel| >= 1 && AllPrintable(rel)
    ensures TokensText(rel, n) == (if n - 1 > 0 then "." else "") + Join(Texts(rel), '.')
    decreases |rel|
  {
    assert Printable(rel[0]);
    TextStep(rel, n);
    if |rel| > 1 {
      ReleaseText(rel[1..], 2);
      ReleaseTextCons(rel, n);
    } else {
      assert TokensText(rel[1..], 2) == "";
    }
  }

  /** The step of `ReleaseText`: the first token, then the rest as a dotted list. */
  lemma ReleaseTextCons(rel: seq<Token>, n: int)
    requires |rel| > 1 && !rel[0].Hole?
    requires TokensText(rel[1..], 2) == "." + Join(Texts(rel[1..]), '.')
    ensures TokensText(rel, n) == (if n - 1 > 0 then "." else "") + Join(Texts(rel), '.')
  {
    var texts := Texts(rel);
    TextStep(rel, n);
    assert texts[1..] == Texts(rel[1..]);
    DotCons((if n - 1 > 0 then "." else ""), texts[0], Join(texts[1..], '.'));
  }

  lemma DotCons(dot: string, head: string, rest: string)
    ensures dot + head + ("." + rest) == dot + (head + ['.'] + rest)
  {
  }

  lemma {:induction false} TextAppend(rel: seq<Token>, rest: seq<Token>, n: int)
    requires |rel| >= 1 && AllPrintable(rel)
    ensures TokensText(rel + rest, n) == TokensText(rel, n) + TokensText(rest, 2)
    decreases |rel|
  {
    var head := (if n - 1 > 0 then "." else "") + TokenText(rel[0]);
    var tail, more := TokensText(rel[1..], 2), TokensText(rest, 2);
    assert Printable(rel[0]);
    TextStep(rel, n);
    assert TokensText(rel, n) == head + tail;
    assert (rel + rest)[0] == rel[0] && (rel + rest)[1..] == rel[1..] + rest;
    TextStep(rel + rest, n);
    assert TokensText(rel + rest, n) == head + TokensText(rel[1..] + rest, 2);
    if |rel| > 1 {
      TextAppend(rel[1..], rest, 2);
    } else {
      assert rel[1..] + rest == rest && tail == "";
    }
    assert TokensText(rel[1..] + rest, 2) == tail + more;
    Assoc(head, tail, more);
  }

  /** One step of the token loop on a token that is not a hole. */
  lemma TextStep(toks: seq<Token>, n: int)
    requires |toks| >= 1 && !toks[0].Hole?
    ensures TokensText(toks, n) == (if n - 1 > 0 then "." else "") + TokenText(toks[0]) + TokensText(toks[1..], 2)
  {
  }

  lemma Assoc<T>(a: seq<T>, b: seq<T>, c: seq<T>)
    ensures a + (b + c) == a + b + c
  {
  }

  lemma {:induction false} CharNotInJoin(parts: seq<string>, sep: char, c: char)
    requires |parts| >= 1 && c != sep
    requires forall i :: 0 <= i < |parts| ==> c !in parts[i]
    ensures c !in Join(parts, sep)
    decreases |parts|
  {
    if |parts| > 1 {
      CharNotInJoin(parts[1..], sep, c);
    }
  }

  lemma {:induction false} JoinNotEmpty(parts: seq<string>, sep: char)
    requires |parts| >= 1 && |parts[0]| >= 1
    ensures |Join(parts, sep)| >= 1
  {
  }

  /** The text of printable tokens splits and reads back into the tokens. */
  lemma {:induction false} SegmentsOfText(rel: seq<Token>)
    requires |rel| >= 1 && AllPrintable(rel)
    ensures Segments(Join(Texts(rel), '.')) == rel
    ensures '-' !in Join(Texts(rel), '.') && '+' !in Join(Texts(rel), '.')
    ensures |Join(Texts(rel), '.')| >= 1
  {
    var parts := Texts(rel);
    SplitJoin(parts, '.');
    CharNotInJoin(parts, '.', '-');
    CharNotInJoin(parts, '.', '+');
    JoinNotEmpty(parts, '.');
    var segs := Segments(Join(parts, '.'));
    assert |segs| == |rel|;
    forall i | 0 <= i < |rel|
      ensures segs[i] == rel[i]
    {
      assert segs[i] == Segment(parts[i]);
    }
  }

  /** Printing release tokens and parsing the text gives the tokens back. */
  lemma ReleaseRoundTrip(rel: seq<Token>)
    requires |rel| >= 1 && AllPrintable(rel)
    ensures Parse(TokensText(rel, 1)) == Some(rel)
  {
    var text := Join(Texts(rel), '.');
    ReleaseText(rel, 1);
    assert TokensText(rel, 1) == text;
    SegmentsOfText(rel);
    ParseRelease(text);
  }

  /** Printing release and pre-release tokens (`rel`, then the hole, then
      `pre`) and parsing the text gives the tokens back. */
  lemma PreReleaseRoundTrip(rel: seq<Token>, pre: seq<Token>)
    requires AllPrintable(rel)
    requires |pre| >= 1 && AllPrintable(pre)
    ensures Parse(TokensText(rel + [Hole] + pre, 1)) == Some(rel + [Hole] + pre)
  {
    var preText := Join(Texts(pre), '.');
    SegmentsOfText(pre);
    if |rel| == 0 {
      PreReleaseTextNoRelease(pre);
      ParsePreRelease("", preText);
      assert rel + [Hole] + pre == [] + [Hole] + pre;
    } else {
      var relText := Join(Texts(rel), '.');
      SegmentsOfText(rel);
      PreReleaseText(rel, pre);
      ParsePreRelease(relText, preText);
    }
  }

  lemma PreReleaseTextNoRelease(pre: seq<Token>)
    requires |pre| >= 1 && AllPrintable(pre)
    ensures TokensText([Hole] + pre, 1) == "" + "-" + Join(Texts(pre), '.')
  {
    HoleText(pre, 1);
    UndottedText(pre, 0);
    EmptyPrefix(Join(Texts(pre), '.'));
  }

  /** With the counter at most 1, release tokens print without a leading dot. */
  lemma UndottedText(rel: seq<Token>, n: int)
    requires |rel| >= 1 && AllPrintable(rel) && n <= 1
    ensures TokensText(rel, n) == Join(Texts(rel), '.')
  {
    ReleaseText(rel, n);
    var b := Join(Texts(rel), '.');
    assert "" + b == b;
  }

  lemma EmptyPrefix(b: string)
    ensures "" + "-" + b == "-" + b
  {
  }

  /** A hole prints as `-` and lowers the dot counter by one. */
  lemma HoleText(rest: seq<Token>, n: int)
    ensures TokensText([Hole] + rest, n) == "-" + TokensText(rest, n - 1)
  {
    var toks := [Hole] + rest;
    assert toks[0].Hole? && toks[1..] == rest;
  }

  lemma PreReleaseText(rel: seq<Token>, pre: seq<Token>)
    requires |rel| >= 1 && AllPrintable(rel)
    requires |pre| >= 1 && AllPrintable(pre)
    ensures TokensText(rel + [Hole] + pre, 1) == Join(Texts(rel), '.') + "-" + Join(Texts(pre), '.')
  {
    var a := Join(Texts(rel), '.');
    var b := Join(Texts(pre), '.');
    UndottedText(rel, 1);
    HoleText(pre, 2);
    UndottedText(pre, 1);
    TextAppend(rel, [Hole] + pre, 1);
    assert rel + [Hole] + pre == rel + ([Hole] + pre);
    assert TokensText(rel + [Hole] + pre, 1) == a + ("-" + b);
    assert a + ("-" + b) == a + "-" + b;
  }

  /** A leaf with tokens prints as its operator followed by the version
      text; a range of one element prints as `*`. */
  lemma FormatLeaf(k: int, toks: seq<Token>)
    ensures |toks| == 0 ==> Format(Leaf(k, toks)) == Success("*")
    ensures |toks| >= 1 && AllPrintable(toks) ==>
      exists text :: Format(Leaf(k, toks)) == Success(OpText(k) + text) && Parse(text) == Some(toks)
  {
    if |toks| >= 1 && AllPrintable(toks) {
      ReleaseRoundTrip(toks);
      assert Format(Leaf(k, toks)) == Success(OpText(k) + TokensText(toks, 1));
    }
  }
}
