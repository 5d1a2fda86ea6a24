/** When the path normaliser meets the specification of path normalisation, and when it is
    idempotent. */
module PathProperties {
  import opened PathText
  import opened PathSpec

  // ---------------------------------------------------------------------------------------------
  // Segments and text
  // ---------------------------------------------------------------------------------------------

  predicate IsSegment(x: string) {
    x != "" && x[0] != '/' && '/' !in x[..|x| - 1]
  }

  predicate Slashed(x: string) { x != "" && x[|x| - 1] == '/' }

  /** Segments as they occur in a path: only the last may lack its slash. */
  predicate Proper(segs: seq<string>) {
    forall i :: 0 <= i < |segs| ==> IsSegment(segs[i]) && (i < |segs| - 1 ==> Slashed(segs[i]))
  }

  lemma HeadIsSegment(t: string)
    requires t != "" && t[0] != '/'
    ensures IsSegment(Head(t)) && (Tail(t) != "" ==> Slashed(Head(t)))
  {
    var n := NameLen(t);
    assert n > 0;
    if n < |t| {
      assert Head(t)[..n] == t[..n];
    } else {
      assert Head(t) == t[..n];
      assert '/' !in t[..n];
    }
  }

  lemma {:induction false} SegmentsProper(s: string)
    ensures Proper(Segments(s))
    decreases |s|
  {
    var t := Body(s);
    if t != "" {
      RelativeUnfold(s);
      NoLead(s);
      HeadIsSegment(t);
      EmptyTail(t);
      hide Segments, Head, Tail, Body, IsSegment, Slashed, Relative;
      SegmentsProper(Tail(t));
      ProperCons(Head(t), Segments(Tail(t)));
    }
  }

  lemma ProperCons(x: string, segs: seq<string>)
    requires IsSegment(x) && (segs != [] ==> Slashed(x)) && Proper(segs)
    ensures Proper([x] + segs)
  {
  }

  lemma EmptyTail(t: string)
    ensures Tail(t) == "" ==> Segments(Tail(t)) == []
  {
  }

  lemma NameLenOf(x: string, n: nat, y: string)
    requires n <= |x| && '/' !in x[..n] && (n < |x| ==> x[n] == '/') && (n == |x| ==> y == "" || y[0] == '/')
    ensures NameLen(x + y) == n
  {
    assert (x + y)[..n] == x[..n];
    NameLenUnique(x + y, n);
  }

  lemma {:induction false} NameLenUnique(s: string, n: nat)
    requires n <= |s| && '/' !in s[..n] && (n < |s| ==> s[n] == '/')
    ensures NameLen(s) == n
    decreases n
  {
    if n > 0 {
      assert s[0] == s[..n][0];
      assert s[1..][..n - 1] == s[..n][1..];
      NameLenUnique(s[1..], n - 1);
    }
  }

  /** Putting a slashed segment in front of a text adds it to the text's segments. */
  lemma SegmentsCons(x: string, y: string)
    requires IsSegment(x) && (Slashed(x) || y == "")
    ensures Segments(x + y) == [x] + Segments(y) && Lead(x + y) == ""
  {
    var t := x + y;
    assert SlashRun(t) == 0 && Body(t) == t;
    if Slashed(x) {
      var n := |x| - 1;
      NameLenOf(x, n, y);
      assert Head(t) == x[..n] + "/" == x;
      assert t[n..] == "/" + y;
      assert ("/" + y)[1..] == y;
      assert Body("/" + y) == Body(y);
      SegmentsBody(y);
    } else {
      assert t == x && '/' !in x;
      NameLenOf(x, |x|, "");
      assert x + "" == x;
      assert x[|x|..] == "";
      assert Head(t) == x && Tail(t) == "";
      EmptyTail(t);
    }
  }

  lemma {:induction false} SegmentsJoin(segs: seq<string>)
    requires Proper(segs)
    ensures Segments(Join(segs)) == segs && Lead(Join(segs)) == "" && (Join(segs) == "" <==> segs == [])
    decreases |segs|
  {
    if segs != [] {
      assert forall i :: 0 <= i < |segs[1..]| ==> segs[1..][i] == segs[i + 1];
      SegmentsJoin(segs[1..]);
      SegmentsCons(segs[0], Join(segs[1..]));
      assert segs == [segs[0]] + segs[1..];
    }
  }

  lemma {:induction false} SegmentsAfterUps(n: nat, y: string)
    ensures Segments(Join(Repeat(n)) + y) == Repeat(n) + Segments(y)
    ensures n > 0 ==> Lead(Join(Repeat(n)) + y) == "" && |Join(Repeat(n))| > 0 && Join(Repeat(n))[0] == '.'
  {
    hide Segments, Lead, IsSegment, Slashed;
    if n == 0 {
      assert "" + y == y;
      assert [] + Segments(y) == Segments(y);
    } else {
      SegmentsAfterUps(n - 1, y);
      UpIsSegment();
      OneMore("../", Join(Repeat(n - 1)), Repeat(n - 1), y);
      assert Repeat(n) == ["../"] + Repeat(n - 1);
      JoinCons("../", Repeat(n - 1));
    }
  }

  lemma UpIsSegment()
    ensures IsSegment("../") && Slashed("../")
  {
    assert "../"[..2] == "..";
  }

  lemma OneMore(x: string, rest: string, segs: seq<string>, y: string)
    requires IsSegment(x) && Slashed(x) && Segments(rest + y) == segs + Segments(y)
    ensures Segments(x + rest + y) == [x] + segs + Segments(y) && Lead(x + rest + y) == ""
  {
    hide Segments, Lead, IsSegment, Slashed;
    SegmentsCons(x, rest + y);
    assert x + rest + y == x + (rest + y);
    assert [x] + segs + Segments(y) == [x] + (segs + Segments(y));
  }

  lemma {:induction false} JoinConcat(a: seq<string>, b: seq<string>)
    ensures Join(a + b) == Join(a) + Join(b)
    decreases |a|
  {
    if a == [] {
      assert a + b == b;
    } else {
      assert (a + b)[1..] == a[1..] + b;
      JoinConcat(a[1..], b);
    }
  }

  // ---------------------------------------------------------------------------------------------
  // Invariants of the fold
  // ---------------------------------------------------------------------------------------------

  predicate AllNames(stack: seq<string>, exact: bool) {
    forall x <- stack :: KindOf(x, exact) == Name
  }

  lemma {:induction false} FoldKeepsProper(f: Fold, segs: seq<string>, exact: bool)
    requires Proper(segs) && Proper(f.stack) && AllNames(f.stack, exact)
    requires segs != [] ==> forall x <- f.stack :: Slashed(x)
    ensures Proper(FoldAll(f, segs, exact).stack) && AllNames(FoldAll(f, segs, exact).stack, exact)
    decreases |segs|
  {
    if segs != [] {
      var g := StepFold(f, segs[0], exact);
      assert forall i :: 0 <= i < |segs[1..]| ==> segs[1..][i] == segs[i + 1];
      assert Proper(g.stack);
      FoldKeepsProper(g, segs[1..], exact);
    }
  }

  function Weight(seg: string, exact: bool): int {
    match KindOf(seg, exact) case Here => 0 case Up => -1 case Name => 1
  }

  /** How far below its start a list of segments leads: names down, `..` up. */
  function Height(segs: seq<string>, exact: bool): int {
    if segs == [] then 0 else Weight(segs[0], exact) + Height(segs[1..], exact)
  }

  /** No beginning of the path leads above where it starts. */
  ghost predicate NeverAbove(segs: seq<string>, exact: bool) {
    forall i :: 0 <= i <= |segs| ==> Height(segs[..i], exact) >= 0
  }

  lemma {:induction false} FoldHeight(f: Fold, segs: seq<string>, exact: bool)
    ensures var g := FoldAll(f, segs, exact);
            |g.stack| - g.ups == |f.stack| - f.ups + Height(segs, exact) && g.ups >= f.ups
    decreases |segs|
  {
    if segs != [] {
      FoldHeight(StepFold(f, segs[0], exact), segs[1..], exact);
    }
  }

  /** A `..` is left over exactly when some beginning of the path leads above its start. */
  lemma {:induction false} LeftOverIffAbove(f: Fold, segs: seq<string>, exact: bool)
    ensures FoldAll(f, segs, exact).ups == f.ups <==>
              forall i :: 0 <= i <= |segs| ==> |f.stack| + Height(segs[..i], exact) >= 0
    decreases |segs|
  {
    if segs == [] {
      assert segs[..0] == [];
    } else {
      var g := StepFold(f, segs[0], exact);
      FoldHeight(g, segs[1..], exact);
      LeftOverIffAbove(g, segs[1..], exact);
      forall i | 0 < i <= |segs|
        ensures Height(segs[..i], exact) == Weight(segs[0], exact) + Height(segs[1..][..i - 1], exact)
      {
        assert segs[..i][1..] == segs[1..][..i - 1];
      }
      assert segs[..0] == [] && segs[1..][..0] == [] && Height([], exact) == 0;
      if g.ups > f.ups {
        assert Height(segs[..1], exact) == -1;
      } else if forall i :: 0 <= i <= |segs| ==> |f.stack| + Height(segs[..i], exact) >= 0 {
        forall i | 0 <= i <= |segs[1..]| ensures |g.stack| + Height(segs[1..][..i], exact) >= 0 {
          assert |f.stack| + Height(segs[..i + 1], exact) >= 0;
        }
      } else {
        var i :| 0 <= i <= |segs| && |f.stack| + Height(segs[..i], exact) < 0;
        assert i > 0;
        assert |g.stack| + Height(segs[1..][..i - 1], exact) < 0;
      }
    }
  }

  /** Names that start with a dot although they are neither `.` nor `..`. */
  predicate Hidden(seg: string) {
    StartsHere(seg) && seg !in ["./", ".", "../", ".."]
  }

  predicate NoHiddenNames(s: string) { forall seg <- Segments(s) :: !Hidden(seg) }

  lemma HiddenWeight(seg: string)
    ensures if Hidden(seg) then Weight(seg, false) < Weight(seg, true) else KindOf(seg, false) == KindOf(seg, true)
  {
  }

  lemma {:induction false} HiddenHeight(segs: seq<string>)
    ensures Height(segs, false) <= Height(segs, true)
    ensures (exists seg <- segs :: Hidden(seg)) ==> Height(segs, false) < Height(segs, true)
    decreases |segs|
  {
    if segs != [] {
      HiddenWeight(segs[0]);
      HiddenHeight(segs[1..]);
    }
  }

  lemma {:induction false} SameFold(f: Fold, segs: seq<string>)
    requires forall seg <- segs :: !Hidden(seg)
    ensures FoldAll(f, segs, false) == FoldAll(f, segs, true)
    decreases |segs|
  {
    if segs != [] {
      HiddenWeight(segs[0]);
      assert segs[0] in segs;
      SameFold(StepFold(f, segs[0], true), segs[1..]);
    }
  }

  lemma {:induction false} FoldOfResult(ups: nat, n: nat, stack: seq<string>, exact: bool)
    requires AllNames(stack, exact)
    ensures FoldAll(Fold(ups, []), Repeat(n) + stack, exact) == Fold(ups + n, stack)
    decreases n
  {
    if n == 0 {
      assert [] + stack == stack;
      FoldOfNames(ups, [], stack, exact);
    } else {
      assert (Repeat(n) + stack)[1..] == Repeat(n - 1) + stack;
      FoldOfResult(ups + 1, n - 1, stack, exact);
    }
  }

  lemma {:induction false} FoldOfNames(ups: nat, below: seq<string>, stack: seq<string>, exact: bool)
    requires AllNames(stack, exact)
    ensures FoldAll(Fold(ups, below), stack, exact) == Fold(ups, below + stack)
    decreases |stack|
  {
    if stack == [] {
      assert below + stack == below;
    } else {
      assert stack[0] in stack;
      FoldOfNames(ups, below + [stack[0]], stack[1..], exact);
      assert below + [stack[0]] + stack[1..] == below + stack;
    }
  }

  // ---------------------------------------------------------------------------------------------
  // Main results
  // ---------------------------------------------------------------------------------------------

  /** The fold of the program on a path, and of the specification. */
  function Folded(s: string, exact: bool): Fold { FoldAll(EMPTY, Segments(s), exact) }

  lemma FoldedFacts(s: string, exact: bool)
    ensures var f := Folded(s, exact);
            && Proper(f.stack) && AllNames(f.stack, exact)
            && |f.stack| - f.ups == Height(Segments(s), exact)
            && (f.ups == 0 <==> NeverAbove(Segments(s), exact))
  {
    hide Segments, FoldAll, Height, KindOf, Proper;
    SegmentsProper(s);
    assert Proper([]) by { ProperEmpty(); }
    FoldKeepsProper(EMPTY, Segments(s), exact);
    FoldHeight(EMPTY, Segments(s), exact);
    LeftOverIffAbove(EMPTY, Segments(s), exact);
  }

  lemma ProperEmpty()
    ensures Proper([])
  {
  }

  /** Names kept by either fold are names in the exact sense, and no segment is a bare `..`. */
  lemma NamesAreExact(stack: seq<string>, exact: bool)
    requires AllNames(stack, exact)
    ensures AllNames(stack, true)
  {
  }

  /** The segments of a result lead as far as the fold went. */
  lemma ResultHeight(ups: nat, stack: seq<string>)
    requires Proper(stack) && AllNames(stack, true)
    ensures Height(Segments(OrDot(Join(Repeat(ups)) + Join(stack))), true) == |stack| - ups
  {
    SegmentsOfResult(ups, stack);
    FoldOfResult(0, ups, stack, true);
    assert ["./"][1..] == [];
    FoldHeight(EMPTY, Repeat(ups) + stack, true);
  }

  /** Reading a relative result back gives the left-over `..` and the kept names. */
  lemma SegmentsOfResult(ups: nat, stack: seq<string>)
    requires Proper(stack)
    ensures var out := Join(Repeat(ups)) + Join(stack);
            && Segments(out) == Repeat(ups) + stack && Lead(out) == ""
            && (out == "" <==> ups == 0 && stack == [])
            && Segments("./") == ["./"] && Lead("./") == ""
  {
    hide Segments, IsSegment, Slashed;
    SegmentsJoin(stack);
    SegmentsAfterUps(ups, Join(stack));
    if ups == 0 {
      assert "" + Join(stack) == Join(stack);
    }
    assert IsSegment("./") && Slashed("./") by { DotIsSegment(); }
    SegmentsCons("./", "");
    assert "./" + "" == "./";
    assert Segments("") == [] by { EmptySegments(""); }
  }

  lemma DotIsSegment()
    ensures IsSegment("./") && Slashed("./")
  {
    assert "./"[..1] == ".";
  }

  /** For every path, the program's result is the specified one if and only if no name starts with a
      dot (other than `.` and `..`) and, for an absolute path, no beginning of it leads above the
      root. */
  lemma MeetsSpecificationExactly(s: string)
    ensures Normalize(s) == Specification(s) <==>
              NoHiddenNames(s) && (IsAbsolute(s) ==> NeverAbove(Segments(s), true))
  {
    hide Segments, Normalize, FoldAll, Height, KindOf, Proper, NeverAbove, AllNames, Join, Repeat;
    NormalizeFolds(s);
    FoldedFacts(s, false);
    FoldedFacts(s, true);
    var f, g := Folded(s, false), Folded(s, true);
    NamesAreExact(f.stack, false);
    HiddenHeight(Segments(s));
    if NoHiddenNames(s) {
      SameFold(EMPTY, Segments(s));
    }
    if IsAbsolute(s) {
      AbsoluteResult(s, f, g);
    } else {
      RelativeResult(s, f, g);
    }
  }

  lemma RelativeResult(s: string, f: Fold, g: Fold)
    requires !IsAbsolute(s) && f == Folded(s, false) && g == Folded(s, true)
    requires Proper(f.stack) && Proper(g.stack) && AllNames(f.stack, true) && AllNames(g.stack, true)
    ensures f == g ==> OrDot(Written(s)) == Specification(s)
    ensures OrDot(Written(s)) == Specification(s) ==> |f.stack| - f.ups == |g.stack| - g.ups
  {
    hide Segments, FoldAll, Height, KindOf, Proper, AllNames;
    ResultHeight(f.ups, f.stack);
    ResultHeight(g.ups, g.stack);
    JoinConcat(Repeat(g.ups), g.stack);
    hide Join, Repeat;
    assert Join(Repeat(f.ups)) + "" == Join(Repeat(f.ups));
  }

  lemma AbsoluteResult(s: string, f: Fold, g: Fold)
    requires IsAbsolute(s) && f == Folded(s, false) && g == Folded(s, true)
    requires Proper(f.stack) && Proper(g.stack)
    ensures OrDot(Written(s)) == Specification(s) <==> f.ups == 0 && f.stack == g.stack
  {
    hide Segments, FoldAll, Height, KindOf, Proper;
    SegmentsJoin(f.stack);
    SegmentsJoin(g.stack);
    SegmentsAfterUps(f.ups, "");
    var ups := Join(Repeat(f.ups));
    assert f.ups == 0 ==> ups == "";
    hide Join, Repeat;
    assert Written(s) == ups + "/" + Join(f.stack);
    if f.ups > 0 {
      assert Written(s)[0] == ups[0] == '.';
    } else {
      assert Written(s) == "/" + Join(f.stack);
      assert ("/" + Join(f.stack))[1..] == Join(f.stack);
      assert ("/" + Join(g.stack))[1..] == Join(g.stack);
    }
  }

  /** Normalising again changes nothing, except after an absolute path that led above the root: its
      result has a doubled slash, which the second time collapses. */
  lemma IdempotentExactly(s: string)
    ensures Normalize(Normalize(s)) == Normalize(s) <==> !IsAbsolute(s) || NeverAbove(Segments(s), false)
  {
    hide Segments, Normalize, FoldAll, Height, KindOf, Proper, NeverAbove, AllNames, Join, Repeat, Written;
    NormalizeFolds(s);
    FoldedFacts(s, false);
    var f := Folded(s, false);
    var out := Normalize(s);
    NormalizeFolds(out);
    if IsAbsolute(s) {
      AgainAbsolute(s, f);
    } else {
      AgainRelative(s, f);
    }
  }

  lemma WrittenFrom(s: string, ups: nat, stack: seq<string>)
    requires FoldAll(EMPTY, Segments(s), false) == Fold(ups, stack) && Lead(s) == ""
    ensures Written(s) == Join(Repeat(ups)) + Join(stack)
  {
    hide Segments, FoldAll, Lead, Join, Repeat;
    assert Join(Repeat(ups)) + "" == Join(Repeat(ups));
  }

  lemma NothingWritten()
    ensures Written("./") == ""
  {
    hide Segments, IsSegment, Slashed;
    SegmentsOfResult(0, []);
    FoldOfDot();
    hide FoldAll, Lead;
    WrittenFrom("./", 0, []);
  }

  lemma FoldOfDot()
    ensures FoldAll(EMPTY, ["./"], false) == EMPTY
  {
    assert ["./"][1..] == [];
  }

  lemma AgainRelative(s: string, f: Fold)
    requires !IsAbsolute(s) && f == Folded(s, false) && Proper(f.stack) && AllNames(f.stack, false)
    ensures OrDot(Written(OrDot(Written(s)))) == OrDot(Written(s))
  {
    assert Lead(s) == "" && FoldAll(EMPTY, Segments(s), false) == Fold(f.ups, f.stack);
    hide Segments, FoldAll, KindOf, Proper, AllNames, Repeat, Join, Lead, Written, Folded, IsAbsolute, OrDot;
    WrittenFrom(s, f.ups, f.stack);
    WrittenAgain(f.ups, f.stack);
  }

  lemma WrittenAgain(ups: nat, stack: seq<string>)
    requires Proper(stack) && AllNames(stack, false)
    ensures var out := Join(Repeat(ups)) + Join(stack); OrDot(Written(OrDot(out))) == OrDot(out)
  {
    hide Segments, FoldAll, KindOf, Proper, AllNames, Repeat, Join, Lead, Written;
    var out := Join(Repeat(ups)) + Join(stack);
    SegmentsOfResult(ups, stack);
    if out == "" {
      NothingWritten();
    } else {
      FoldOfResult(0, ups, stack, false);
      WrittenFrom(out, ups, stack);
    }
  }

  lemma AgainAbsolute(s: string, f: Fold)
    requires IsAbsolute(s) && f == Folded(s, false) && Proper(f.stack) && AllNames(f.stack, false)
    ensures OrDot(Written(OrDot(Written(s)))) == OrDot(Written(s)) <==> f.ups == 0
  {
    hide FoldAll, KindOf, Proper, AllNames, Segments, Repeat, Join, Lead, Written, IsAbsolute, Folded;
    AbsoluteWritten(s, f);
    var kept, ups := Join(f.stack), Join(Repeat(f.ups));
    AgainFromRoot(f.ups, f.stack);
    if f.ups == 0 {
      NothingJoined();
    }
    Lengths(ups, kept);
  }

  lemma Lengths(ups: string, kept: string)
    ensures ups == "" ==> ups + "/" + kept == "/" + kept
    ensures |ups + "/" + kept| == |ups| + 1 + |kept| && |ups + kept| == |ups| + |kept|
  {
  }

  lemma AgainFromRoot(n: nat, stack: seq<string>)
    requires Proper(stack) && AllNames(stack, false)
    ensures var out := Join(Repeat(n)) + "/" + Join(stack);
            Written(out) == (if n == 0 then "/" + Join(stack) else Join(Repeat(n)) + Join(stack))
    ensures n > 0 ==> |Join(Repeat(n))| > 0
  {
    hide FoldAll, KindOf, Proper, AllNames, Segments, Repeat, Join, Lead, Written;
    var kept, ups := Join(stack), Join(Repeat(n));
    SegmentsJoin(stack);
    SlashInFront(kept);
    SegmentsAfterUps(n, "/" + kept);
    FoldOfResult(0, n, stack, false);
    assert ups + "/" + kept == ups + ("/" + kept);
    if n == 0 {
      NothingJoined();
      NothingBefore("/" + kept);
      WrittenAbsolute("/" + kept, stack);
    } else {
      WrittenFrom(ups + ("/" + kept), n, stack);
    }
  }

  lemma AbsoluteWritten(s: string, f: Fold)
    requires IsAbsolute(s) && f == Folded(s, false)
    ensures Written(s) == Join(Repeat(f.ups)) + "/" + Join(f.stack)
  {
    hide FoldAll, Segments, Join, Repeat;
  }

  lemma SlashInFront(x: string)
    requires Lead(x) == ""
    ensures Segments("/" + x) == Segments(x) && Lead("/" + x) == "/"
  {
    LeadConcat("/", x);
  }

  lemma WrittenAbsolute(s: string, stack: seq<string>)
    requires FoldAll(EMPTY, Segments(s), false) == Fold(0, stack) && Lead(s) == "/"
    ensures Written(s) == "/" + Join(stack)
  {
    hide Segments, FoldAll, Lead;
    NothingJoined();
    hide Join, Repeat;
    assert "" + "/" == "/";
  }

  lemma NothingJoined()
    ensures Repeat(0) == [] && Join([]) == ""
  {
  }

  /** The two ways to leave the specification, on concrete paths: a hidden file vanishes, and
      climbing above the root produces a relative path. */
  lemma OutsideTheSpecification()
    ensures Normalize(".a") == "./" && Specification(".a") == ".a"
    ensures Normalize("/../a") == "..//a" && Specification("/../a") == "/a"
  {
    HiddenVanishes();
    RootIsLeft();
  }

  lemma OneSegment(x: string)
    requires IsSegment(x)
    ensures Segments(x) == [x] && Lead(x) == "" && [x][1..] == []
  {
    hide Segments, Lead, IsSegment, Slashed;
    SegmentsCons(x, "");
    assert x + "" == x;
    EmptySegments("");
  }

  lemma JoinOne(x: string)
    ensures Join([x]) == x && Repeat(1) == ["../"]
  {
    NothingJoined();
    JoinCons(x, []);
    assert [x] + [] == [x] && x + "" == x;
    assert ["../"] + [] == ["../"];
  }

  lemma FoldOne(f: Fold, x: string, exact: bool)
    ensures FoldAll(f, [x], exact) == StepFold(f, x, exact)
  {
    assert [x][1..] == [];
  }

  lemma FoldTwo(f: Fold, x: string, y: string, exact: bool)
    ensures FoldAll(f, [x, y], exact) == StepFold(StepFold(f, x, exact), y, exact)
  {
    hide StepFold;
    assert [x, y][1..] == [y];
    FoldOne(StepFold(f, x, exact), y, exact);
  }

  lemma Kinds()
    ensures KindOf(".a", false) == Here && KindOf(".a", true) == Name
    ensures KindOf("../", false) == Up && KindOf("../", true) == Up
    ensures KindOf("a", false) == Name && KindOf("a", true) == Name
    ensures IsSegment(".a") && IsSegment("a")
  {
    assert ".a"[..1] == "." && ".a"[1] == 'a' && "./"[1] == '/' && ".."[1] == '.';
  }

  lemma HiddenVanishes()
    ensures Normalize(".a") == "./" && Specification(".a") == ".a"
  {
    Kinds();
    hide Segments, Lead, Normalize, KindOf, IsSegment, Join, Repeat, FoldAll, Written;
    var x := ".a";
    assert !IsAbsolute(x);
    OneSegment(x);
    NormalizeFolds(x);
    NothingJoined();
    JoinOne(x);
    FoldOne(EMPTY, x, false);
    FoldOne(EMPTY, x, true);
    assert [] + [x] == [x];
    WrittenFrom(x, 0, []);
  }

  lemma RootIsLeft()
    ensures Normalize("/../a") == "..//a" && Specification("/../a") == "/a"
  {
    Kinds();
    UpIsSegment();
    hide Segments, Lead, Normalize, KindOf, IsSegment, Slashed, Join, Repeat, FoldAll, Written;
    var up, x := "../", "a";
    var s := "/" + (up + x);
    assert s == "/../a" && IsAbsolute(s);
    OneSegment(x);
    SegmentsCons(up, x);
    SlashInFront(up + x);
    assert [up] + [x] == [up, x];
    NormalizeFolds(s);
    JoinOne(up);
    JoinOne(x);
    FoldTwo(EMPTY, up, x, false);
    FoldTwo(EMPTY, up, x, true);
    assert [] + [x] == [x];
    AbsoluteWritten(s, Fold(1, [x]));
  }
}
