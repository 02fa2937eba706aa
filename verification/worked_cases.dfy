/** Concrete inputs and the results the model gives for them: the cases
    the runtime's behaviour is easiest to recognise by. */
module WorkedCases {
  import opened Text
  import opened Results
  import opened Version
  import opened Ranges
  import Registry
  import SharedScope

  lemma MatchCase()
    ensures MatchGroups("1.2.3-beta.1+x") == Some(Groups("1.2.3", Some("beta.1"), Some("x")))
  {
    var r, p, b := "1.2.3", "beta.1", "x";
    assert !HasLineTerminator(b);
    MatchAllGroups(r, p, b);
    assert r + "-" == "1.2.3-";
    assert r + "-" + p == "1.2.3-beta.1";
    assert r + "-" + p + "+" == "1.2.3-beta.1+";
    assert r + "-" + p + "+" + b == "1.2.3-beta.1+x";
  }

  lemma SegmentsCase123()
    ensures Segments("1.2.3") == [Num(1), Num(2), Num(3)]
  {
    assert Join(["1", "2", "3"], '.') == "1.2.3";
    SplitJoin(["1", "2", "3"], '.');
  }

  lemma SegmentsCaseBeta()
    ensures Segments("beta.1") == [Str("beta"), Num(1)]
  {
    var parts := ["beta", "1"];
    assert Join(parts, '.') == "beta.1";
    SplitJoin(parts, '.');
    assert Split("beta.1", '.') == parts;
    assert !IsDigit("beta"[0]);
    assert Segment("beta") == Str("beta");
    assert DigitsValue("1") == 1;
    assert Segment("1") == Num(1);
    var segs := SegmentsOf(parts);
    assert segs[0] == Segment(parts[0]) && segs[1] == Segment(parts[1]);
  }

  lemma SegmentsCaseX()
    ensures Segments("x") == [Str("x")]
  {
    SplitNoSeparator("x", '.');
    assert !IsDigit("x"[0]);
  }

  lemma LayoutCase()
    ensures Segments("1.2.3") + [Hole] + Segments("beta.1") + [Build] + Segments("x")
         == [Num(1), Num(2), Num(3), Hole, Str("beta"), Num(1), Build, Str("x")]
  {
    SegmentsCase123();
    SegmentsCaseBeta();
    SegmentsCaseX();
    LayoutOfSegments(Segments("1.2.3"), Segments("beta.1"), Segments("x"));
  }

  lemma LayoutOfSegments(release: seq<Token>, pre: seq<Token>, build: seq<Token>)
    requires release == [Num(1), Num(2), Num(3)] && pre == [Str("beta"), Num(1)] && build == [Str("x")]
    ensures release + [Hole] + pre + [Build] + build
         == [Num(1), Num(2), Num(3), Hole, Str("beta"), Num(1), Build, Str("x")]
  {
  }

  /** `"1.2.3-beta.1+x"` lays out as `[1, 2, 3, <hole>, "beta", 1, [], "x"]`. */
  lemma ParseCase()
    ensures Parse("1.2.3-beta.1+x") == Some([Num(1), Num(2), Num(3), Hole, Str("beta"), Num(1), Build, Str("x")])
  {
    MatchCase();
    ParseOfGroups("1.2.3-beta.1+x", Groups("1.2.3", Some("beta.1"), Some("x")));
    LayoutOfAllGroups("1.2.3", "beta.1", "x");
    LayoutCase();
  }

  /** A pre-release sorts below its release, a missing segment sorts below
      a present one, a number sorts below a string, and build metadata
      raises a version. */
  lemma LtCases()
    ensures Lt([Num(1), Num(0), Num(0), Hole, Str("alpha")], [Num(1), Num(0), Num(0)])
    ensures !Lt([Num(1), Num(0), Num(0)], [Num(1), Num(0), Num(0), Hole, Str("alpha")])
    ensures Lt([Num(1), Num(0)], [Num(1), Num(0), Num(1)])
    ensures Lt([Num(1), Num(0), Num(7)], [Num(1), Num(0), Str("x")])
    ensures Lt([Num(1), Num(0), Num(0)], [Num(1), Num(0), Num(0), Build, Str("b")])
  {
  }

  /** `^3.2.8`, compiled to `[1, 3, 2, 8]`, accepts 3.2.8 and 3.9.0 and
      rejects 4.0.0, 3.2.7 and the pre-release 3.2.8-alpha. */
  lemma CaretCases()
    ensures Satisfies(Leaf(1, [Num(3), Num(2), Num(8)]), [Num(3), Num(2), Num(8)])
    ensures Satisfies(Leaf(1, [Num(3), Num(2), Num(8)]), [Num(3), Num(9), Num(0)])
    ensures !Satisfies(Leaf(1, [Num(3), Num(2), Num(8)]), [Num(4), Num(0), Num(0)])
    ensures !Satisfies(Leaf(1, [Num(3), Num(2), Num(8)]), [Num(3), Num(2), Num(7)])
    ensures !Satisfies(Leaf(1, [Num(3), Num(2), Num(8)]), [Num(3), Num(2), Num(8), Hole, Str("alpha")])
  {
  }

  /** `<2`, compiled to `[-1, 2]`, accepts 1.5.0 and rejects 2.0.0. */
  lemma BelowCases()
    ensures Satisfies(Leaf(-1, [Num(2)]), [Num(1), Num(5), Num(0)])
    ensures !Satisfies(Leaf(-1, [Num(2)]), [Num(2), Num(0), Num(0)])
  {
  }

  /** Build metadata is ignored: 3.2.8+b satisfies `^3.2.8`. */
  lemma BuildCase()
    ensures Satisfies(Leaf(1, [Num(3), Num(2), Num(8)]), [Num(3), Num(2), Num(8), Build, Str("b")])
  {
  }

  /** `[1, 3, 2, 8]` prints as `^3.2.8`; a one-element range prints as `*`. */
  lemma FormatCases()
    ensures Format(Leaf(1, [Num(3), Num(2), Num(8)])) == Success("^3.2.8")
    ensures Format(Leaf(0, [])) == Success("*")
    ensures Format(Composite([])) == Success("*")
  {
    var toks := [Num(3), Num(2), Num(8)];
    assert NatToString(3) == "3" && NatToString(2) == "2" && NatToString(8) == "8";
    assert TokensText(toks[2..], 2) == ".8";
    assert TokensText(toks[1..], 2) == ".2" + TokensText(toks[2..], 2);
    assert TokensText(toks, 1) == "3" + TokensText(toks[1..], 2);
    assert "^" + ("3" + (".2" + ".8")) == "^3.2.8";
  }

  /** A consumer of `@jupyterlab/rendermime` at `^3.2.8` that finds an empty
      version table: `l` chooses 0, "0" is outside the range, so `u` is
      printed, and then reading the chosen entry is a TypeError. */
  lemma EmptyTableCase()
    ensures var scope: SharedScope.Scope := map["@jupyterlab/rendermime" := []];
      var range := Leaf(1, [Num(3), Num(2), Num(8)]);
      && SharedScope.PickShared(scope, "@jupyterlab/rendermime", range) == Failure(TypeError)
      && SharedScope.PickWarning(scope, "@jupyterlab/rendermime", range)
         == Some(SharedScope.UnsatisfiedMessage("0", "0", "@jupyterlab/rendermime", "^3.2.8"))
  {
    FormatCases();
    ZeroOutsideCaret();
  }

  /** "0" parses and falls outside `^3.2.8`. */
  lemma ZeroOutsideCaret()
    ensures SatisfiesText(Leaf(1, [Num(3), Num(2), Num(8)]), "0") == Success(false)
  {
    ParseRelease("0");
    SplitNoSeparator("0", '.');
    assert "0"[..0] == "";
    assert DigitsValue("0") == 0;
    assert Segment("0") == Num(0);
    assert Segments("0") == SegmentsOf(["0"]) == [Num(0)];
    assert !Satisfies(Leaf(1, [Num(3), Num(2), Num(8)]), [Num(0)]);
  }

  /** A composite `not(<2) || ^3.2.8` in postfix form. */
  lemma CompositeCases()
    ensures Satisfies(Composite([Sub(Leaf(-1, [Num(2)])), Not, Sub(Leaf(1, [Num(3), Num(2), Num(8)])), Or]), [Num(3), Num(4), Num(0)])
    ensures !Satisfies(Composite([Sub(Leaf(-1, [Num(2)])), Not, Sub(Leaf(1, [Num(3), Num(2), Num(8)])), And]), [Num(1), Num(4), Num(0)])
  {
    var below, caret := Leaf(-1, [Num(2)]), Leaf(1, [Num(3), Num(2), Num(8)]);
    var either, both := OrC(NotC(Match(below)), Match(caret)), AndC(NotC(Match(below)), Match(caret));
    assert Compile(either) == [Sub(below), Not, Sub(caret), Or];
    assert Compile(both) == [Sub(below), Not, Sub(caret), And];
    CompositeMeansExpression(either, [Num(3), Num(4), Num(0)]);
    CompositeMeansExpression(both, [Num(1), Num(4), Num(0)]);
    LeafCases();
  }

  /** The two leaves of the composite cases, on their own. */
  lemma LeafCases()
    ensures !Satisfies(Leaf(-1, [Num(2)]), [Num(3), Num(4), Num(0)])
    ensures Satisfies(Leaf(-1, [Num(2)]), [Num(1), Num(4), Num(0)])
  {
    LeafMatchesOrder(-1, [Num(2)], [Num(3), Num(4), Num(0)]);
    LeafMatchesOrder(-1, [Num(2)], [Num(1), Num(4), Num(0)]);
  }

  // A require cycle. Module 1 defines `a`, requires module 2, then defines
  // `c`; module 2 requires module 1 back.

  const CycleA: Registry.Exports := map["a" := Registry.Data(1)]
  const CycleBody1: seq<Registry.Step> :=
    [Registry.Define(CycleA), Registry.Import(2, "b", "b"), Registry.Define(map["c" := Registry.Data(3)])]
  const CycleBody2: seq<Registry.Step> :=
    [Registry.Import(1, "a", "seen"), Registry.Import(1, "c", "late"), Registry.Define(map["b" := Registry.Data(2)])]
  const CycleFactories: map<nat, Registry.Factory> :=
    map[1 := Registry.Body(CycleBody1), 2 := Registry.Body(CycleBody2)]
  const CycleSeen: Registry.Exports :=
    map["seen" := Registry.Data(1), "late" := Registry.Undefined, "b" := Registry.Data(2)]

  function CycleState(cache: map<nat, Registry.Exports>, ran: seq<nat>): Registry.RegState {
    Registry.RegState(CycleFactories, cache, ran)
  }

  /** Module 2, entered while module 1 has only defined `a`: it copies `a`,
      finds no `c` yet, and records `b`. */
  lemma CycleInner()
    ensures Registry.Require(CycleState(map[1 := CycleA], [1]), 2)
         == Registry.Outcome(Success(CycleSeen), CycleState(map[1 := CycleA, 2 := CycleSeen], [1, 2]))
  {
    var st2 := CycleState(map[1 := CycleA], [1]);
    assert 2 in Registry.BodyIds(CycleFactories);
    var st3 := CycleState(map[1 := CycleA, 2 := map[]], [1, 2]);
    assert st2.cache[2 := map[]] == st3.cache;
    assert st2.ran + [2] == [1, 2];
    assert Registry.Require(st2, 2) == Registry.RunBody(st3, 2, CycleBody2, 0);
    CycleInnerRest();
  }

  lemma CycleInnerRest()
    ensures Registry.RunBody(CycleState(map[1 := CycleA, 2 := map[]], [1, 2]), 2, CycleBody2, 0)
         == Registry.Outcome(Success(CycleSeen), CycleState(map[1 := CycleA, 2 := CycleSeen], [1, 2]))
  {
    CycleSeenStep();
    CycleLateStep();
    CycleDefineB();
  }

  const CycleE1: Registry.Exports := map["seen" := Registry.Data(1)]
  const CycleE2: Registry.Exports := map["seen" := Registry.Data(1), "late" := Registry.Undefined]

  /** Module 2 copies `a` from module 1's partial record as `seen`. */
  lemma CycleSeenStep()
    ensures Registry.RunBody(CycleState(map[1 := CycleA, 2 := map[]], [1, 2]), 2, CycleBody2, 0)
         == Registry.RunBody(CycleState(map[1 := CycleA, 2 := CycleE1], [1, 2]), 2, CycleBody2, 1)
  {
    var st3 := CycleState(map[1 := CycleA, 2 := map[]], [1, 2]);
    var st4 := CycleState(map[1 := CycleA, 2 := CycleE1], [1, 2]);
    assert Registry.Require(st3, 1) == Registry.Outcome(Success(CycleA), st3);
    assert st3.cache[2 := st3.cache[2]["seen" := Registry.Data(1)]] == st4.cache;
  }

  /** Module 1 has not defined `c` yet, so `late` is undefined. */
  lemma CycleLateStep()
    ensures Registry.RunBody(CycleState(map[1 := CycleA, 2 := CycleE1], [1, 2]), 2, CycleBody2, 1)
         == Registry.RunBody(CycleState(map[1 := CycleA, 2 := CycleE2], [1, 2]), 2, CycleBody2, 2)
  {
    var st4 := CycleState(map[1 := CycleA, 2 := CycleE1], [1, 2]);
    var st5 := CycleState(map[1 := CycleA, 2 := CycleE2], [1, 2]);
    assert Registry.Require(st4, 1) == Registry.Outcome(Success(CycleA), st4);
    assert "c" !in CycleA;
    assert st4.cache[2 := st4.cache[2]["late" := Registry.Undefined]] == st5.cache;
  }

  /** Module 2 defines `b` and finishes. */
  lemma CycleDefineB()
    ensures Registry.RunBody(CycleState(map[1 := CycleA, 2 := CycleE2], [1, 2]), 2, CycleBody2, 2)
         == Registry.Outcome(Success(CycleSeen), CycleState(map[1 := CycleA, 2 := CycleSeen], [1, 2]))
  {
    var st5 := CycleState(map[1 := CycleA, 2 := CycleE2], [1, 2]);
    var st6 := CycleState(map[1 := CycleA, 2 := CycleSeen], [1, 2]);
    assert Registry.Defined(CycleE2, map["b" := Registry.Data(2)]) == CycleSeen;
    assert st5.cache[2 := CycleSeen] == st6.cache;
    assert Registry.RunBody(st5, 2, CycleBody2, 2) == Registry.RunBody(st6, 2, CycleBody2, 3);
  }

  /** The whole cycle: module 1 ends with `a`, `b` and `c`; module 2 saw `a`
      but not `c`; each body ran once, module 1 first. */
  lemma CycleCase()
    ensures var r := Registry.Require(CycleState(map[], []), 1);
      && r.result == Success(map["a" := Registry.Data(1), "b" := Registry.Data(2), "c" := Registry.Data(3)])
      && 2 in r.state.cache && r.state.cache[2] == CycleSeen
      && r.state.ran == [1, 2]
  {
    var st0 := CycleState(map[], []);
    assert 1 in Registry.BodyIds(CycleFactories);
    var st1 := CycleState(map[1 := map[]], [1]);
    assert st0.cache[1 := map[]] == st1.cache;
    assert st0.ran + [1] == [1];
    assert Registry.Require(st0, 1) == Registry.RunBody(st1, 1, CycleBody1, 0);
    var st2 := CycleState(map[1 := CycleA], [1]);
    assert Registry.Defined(map[], CycleA) == CycleA;
    assert st1.cache[1 := CycleA] == st2.cache;
    assert Registry.RunBody(st1, 1, CycleBody1, 0) == Registry.RunBody(st2, 1, CycleBody1, 1);
    CycleInner();
    CycleOuterRest();
  }

  const CycleAB: Registry.Exports := map["a" := Registry.Data(1), "b" := Registry.Data(2)]

  lemma CycleOuterRest()
    ensures Registry.RunBody(CycleState(map[1 := CycleA], [1]), 1, CycleBody1, 1)
         == Registry.Outcome(Success(map["a" := Registry.Data(1), "b" := Registry.Data(2), "c" := Registry.Data(3)]),
                             CycleState(map[1 := map["a" := Registry.Data(1), "b" := Registry.Data(2), "c" := Registry.Data(3)], 2 := CycleSeen], [1, 2]))
  {
    CycleImport();
    CycleLastDefine();
  }

  /** Module 1's import of module 2 copies `b`. */
  lemma CycleImport()
    ensures Registry.RunBody(CycleState(map[1 := CycleA], [1]), 1, CycleBody1, 1)
         == Registry.RunBody(CycleState(map[1 := CycleAB, 2 := CycleSeen], [1, 2]), 1, CycleBody1, 2)
  {
    assert 1 in Registry.BodyIds(CycleFactories);
    CycleInner();
    var st6 := CycleState(map[1 := CycleA, 2 := CycleSeen], [1, 2]);
    assert st6.cache[1 := st6.cache[1]["b" := Registry.Data(2)]] == map[1 := CycleAB, 2 := CycleSeen];
  }

  lemma CycleLastDefine()
    ensures Registry.RunBody(CycleState(map[1 := CycleAB, 2 := CycleSeen], [1, 2]), 1, CycleBody1, 2)
         == Registry.Outcome(Success(map["a" := Registry.Data(1), "b" := Registry.Data(2), "c" := Registry.Data(3)]),
                             CycleState(map[1 := map["a" := Registry.Data(1), "b" := Registry.Data(2), "c" := Registry.Data(3)], 2 := CycleSeen], [1, 2]))
  {
    assert 1 in Registry.BodyIds(CycleFactories);
    var st7 := CycleState(map[1 := CycleAB, 2 := CycleSeen], [1, 2]);
    var m3 := map["a" := Registry.Data(1), "b" := Registry.Data(2), "c" := Registry.Data(3)];
    assert Registry.Defined(CycleAB, map["c" := Registry.Data(3)]) == m3;
    var st8 := CycleState(map[1 := m3, 2 := CycleSeen], [1, 2]);
    assert st7.cache[1 := m3] == st8.cache;
    assert Registry.RunBody(st7, 1, CycleBody1, 2) == Registry.RunBody(st8, 1, CycleBody1, 3);
  }
}
