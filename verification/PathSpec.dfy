/** Path normalisation as a fold over segments with a stack, and what the in-place algorithm computes
    in those terms. */
module PathSpec {
  import opened PathText

  datatype Kind = Here | Up | Name

  /** What a segment means: by its exact name, or as the program decides, by its first characters. */
  function KindOf(seg: string, exact: bool): Kind {
    if exact then
      if seg == "." || seg == "./" then Here else if seg == ".." || seg == "../" then Up else Name
    else
      if StartsUp(seg) then Up else if StartsHere(seg) then Here else Name
  }

  /** The state of the fold: `..` segments left over, and the stack of kept segments. */
  datatype Fold = Fold(ups: nat, stack: seq<string>)

  function Pop(stack: seq<string>): seq<string>
    requires stack != []
  {
    stack[..|stack| - 1]
  }

  function StepFold(f: Fold, seg: string, exact: bool): Fold {
    match KindOf(seg, exact)
    case Here => f
    case Up => if f.stack == [] then Fold(f.ups + 1, []) else Fold(f.ups, Pop(f.stack))
    case Name => Fold(f.ups, f.stack + [seg])
  }

  function FoldAll(f: Fold, segs: seq<string>, exact: bool): Fold
    decreases |segs|
  {
    if segs == [] then f else FoldAll(StepFold(f, segs[0], exact), segs[1..], exact)
  }

  const EMPTY := Fold(0, [])

  function Repeat(n: nat): seq<string> {
    if n == 0 then [] else ["../"] + Repeat(n - 1)
  }

  function OrDot(s: string): string { if s == "" then "./" else s }

  predicate IsAbsolute(s: string) { s != "" && s[0] == '/' }

  /** The specification of path normalisation: `.` is dropped, `..` removes the segment before it
      and is kept in front of a relative path when there is none; at the root it is dropped. */
  function Specification(s: string): string {
    var f := FoldAll(EMPTY, Segments(s), true);
    OrDot(if IsAbsolute(s) then "/" + Join(f.stack) else Join(Repeat(f.ups) + f.stack))
  }

  // ---------------------------------------------------------------------------------------------
  // What the recursion computes
  // ---------------------------------------------------------------------------------------------

  /** The fold up to the first `..` that finds an empty stack, and the segments after it. */
  function FoldUntil(stack: seq<string>, segs: seq<string>): (r: (bool, seq<string>, seq<string>))
    ensures r.0 ==> |r.2| < |segs|
    decreases |segs|
  {
    if segs == [] then (false, stack, [])
    else
      match KindOf(segs[0], false)
      case Here => FoldUntil(stack, segs[1..])
      case Up => if stack == [] then (true, [], segs[1..]) else FoldUntil(Pop(stack), segs[1..])
      case Name => FoldUntil(stack + [segs[0]], segs[1..])
  }

  function Under(x: string, above: (bool, seq<string>, seq<string>)): (bool, seq<string>, seq<string>) {
    if above.0 then FoldUntil([], above.2) else (false, [x] + above.1, [])
  }

  /** A segment under the stack matters only when a `..` digs down to it; that `..` removes it, and
      the fold goes on from nothing. */
  lemma {:induction false} FoldUntilUnder(x: string, stack: seq<string>, segs: seq<string>)
    ensures FoldUntil([x] + stack, segs)
         == Under(x, FoldUntil(stack, segs))
    decreases |segs|
  {
    if segs != [] {
      match KindOf(segs[0], false)
      case Here => FoldUntilUnder(x, stack, segs[1..]);
      case Up =>
        if stack == [] {
          assert Pop([x] + stack) == [];
        } else {
          FoldUntilUnder(x, Pop(stack), segs[1..]);
          assert Pop([x] + stack) == [x] + Pop(stack);
        }
      case Name =>
        FoldUntilUnder(x, stack + [segs[0]], segs[1..]);
        assert [x] + stack + [segs[0]] == [x] + (stack + [segs[0]]);
    }
  }

  /** The kind of a segment is visible at the start of the text. */
  lemma HeadKind(t: string)
    requires t != "" && t[0] != '/'
    ensures StartsUp(Head(t)) == StartsUp(t) && StartsHere(Head(t)) == StartsHere(t) && Head(t) != ""
  {
    var n := NameLen(t);
    assert n > 0;
    if n == 1 && |t| > 1 {
      assert t[1] == '/';
      assert Head(t) == t[..1] + "/";
    }
  }

  lemma LeadConcat(s: string, x: string)
    requires Lead(x) == ""
    ensures Lead(Lead(s) + x) == Lead(s) && Segments(Lead(s) + x) == Segments(x)
  {
    if Lead(s) == "/" {
      assert ("/" + x)[1..] == x;
      assert SlashRun("/" + x) == 1 + SlashRun(x);
      assert Body("/" + x) == Body(x);
    } else {
      assert Lead(s) + x == x;
    }
  }

  lemma NoLead(s: string)
    ensures Lead(Body(s)) == "" && Lead(Tail(s)) == ""
    ensures Body(s) != "" ==> Segments(s) == [Head(Body(s))] + Segments(Tail(Body(s)))
  {
  }

  /** The recursive function is the fold up to a left-over `..`: if there is none it leaves the kept
      segments, otherwise the rest of the text; a leading slash stays in front. */
  lemma {:induction false} RelativeFolds(s: string)
    ensures Relative(s).1 == FoldUntil([], Segments(s)).0
    ensures Relative(s).1 ==>
              Lead(Relative(s).0) == Lead(s) && Segments(Relative(s).0) == FoldUntil([], Segments(s)).2
    ensures !Relative(s).1 ==> Relative(s).0 == Lead(s) + Join(FoldUntil([], Segments(s)).1)
    decreases |s|
  {
    var t := Body(s);
    NoLead(s);
    if t == "" {
      EmptySegments(s);
    } else {
      RelativeUnfold(s);
      hide Segments, NameLen, SlashRun, Head, Tail, Body, Relative, FoldUntil, Join;
      HeadKind(t);
      var h, l := Head(t), Segments(Tail(t));
      FoldUntilUnfold(h, l);
      assert Segments(s) == [h] + l;
      if StartsUp(t) {
        LeadConcat(s, Tail(t));
      } else if StartsHere(t) {
        RelativeFolds(Tail(t));
        LeadOfResult(s, Relative(Tail(t)));
        NothingBefore(Join(FoldUntil([], l).1));
      } else {
        RelativeFolds(Tail(t));
        var inner := Relative(Tail(t));
        if inner.1 {
          RelativeFolds(inner.0);
          LeadOfResult(s, Relative(inner.0));
          NothingBefore(Join(FoldUntil([], FoldUntil([], l).2).1));
        } else {
          JoinCons(h, FoldUntil([], l).1);
          NothingBefore(Join(FoldUntil([], l).1));
        }
      }
    }
  }

  lemma NothingBefore(s: string)
    ensures "" + s == s
  {
  }

  lemma JoinCons(h: string, st: seq<string>)
    ensures Join([h] + st) == h + Join(st)
  {
    assert ([h] + st)[1..] == st;
  }

  lemma FoldUntilUnfold(h: string, l: seq<string>)
    ensures FoldUntil([], [h] + l)
         == (match KindOf(h, false)
             case Here => FoldUntil([], l)
             case Up => (true, [], l)
             case Name => Under(h, FoldUntil([], l)))
  {
    assert ([h] + l)[1..] == l;
    if KindOf(h, false) == Name {
      FoldUntilUnder(h, [], l);
      assert [] + [h] == [h] + [];
    }
  }

  lemma LeadOfResult(s: string, r: (string, bool))
    requires r.1 ==> Lead(r.0) == ""
    ensures r.1 ==> Lead(Lead(s) + r.0) == Lead(s) && Segments(Lead(s) + r.0) == Segments(r.0)
  {
    if r.1 {
      LeadConcat(s, r.0);
    }
  }

  lemma NoName()
    ensures Head("") == "" && Tail("") == "" && Body("") == "" && Lead("") == ""
  {
  }

  lemma RelativeOfSlashes(s: string)
    requires Body(s) == ""
    ensures Relative(s) == (Lead(s), false)
  {
    NoName();
    hide Head, Tail, Body, Lead, NameLen, SlashRun;
    assert Relative("") == ("", false);
    assert "" + "" == "" && Lead(s) + "" == Lead(s);
  }

  lemma EmptySegments(s: string)
    requires Body(s) == ""
    ensures Segments(s) == [] && Relative(s) == (Lead(s), false)
  {
    RelativeOfSlashes(s);
  }

  // ---------------------------------------------------------------------------------------------
  // The whole function
  // ---------------------------------------------------------------------------------------------

  function Resumed(ups: nat, f: (bool, seq<string>, seq<string>)): Fold {
    if f.0 then FoldAll(Fold(ups + 1, []), f.2, false) else Fold(ups, f.1)
  }

  /** The fold, stopped at the first left-over `..` and resumed after it. */
  lemma {:induction false} FoldAllResumes(ups: nat, stack: seq<string>, segs: seq<string>)
    ensures FoldAll(Fold(ups, stack), segs, false) == Resumed(ups, FoldUntil(stack, segs))
    decreases |segs|
  {
    if segs != [] {
      match KindOf(segs[0], false)
      case Here => FoldAllResumes(ups, stack, segs[1..]);
      case Up => if stack != [] { FoldAllResumes(ups, Pop(stack), segs[1..]); }
      case Name => FoldAllResumes(ups, stack + [segs[0]], segs[1..]);
    }
  }

  lemma {:induction false} FoldAllFrom(ups: nat, segs: seq<string>, stack: seq<string>, exact: bool)
    ensures FoldAll(Fold(ups, stack), segs, exact).stack == FoldAll(Fold(0, stack), segs, exact).stack
    ensures FoldAll(Fold(ups, stack), segs, exact).ups == ups + FoldAll(Fold(0, stack), segs, exact).ups
    decreases |segs|
  {
    if segs != [] {
      var f, g := StepFold(Fold(ups, stack), segs[0], exact), StepFold(Fold(0, stack), segs[0], exact);
      FoldAllFrom(f.ups, segs[1..], f.stack, exact);
      FoldAllFrom(g.ups, segs[1..], g.stack, exact);
    }
  }

  /** What the program writes: left-over `..` segments, then the leading slash, then what is kept. */
  function Written(s: string): string {
    var f := FoldAll(EMPTY, Segments(s), false);
    Join(Repeat(f.ups)) + Lead(s) + Join(f.stack)
  }

  lemma {:induction false} ClimbWrites(s: string)
    ensures Climb(s) == Written(s)
    decreases |s|
  {
    var r := Relative(s);
    RelativeFolds(s);
    FoldAllResumes(0, [], Segments(s));
    if r.1 {
      ClimbWrites(r.0);
      hide Segments, Relative, FoldUntil, Lead, FoldAll, Written;
      OneUpWritten(s, r.0);
    } else {
      hide Segments, Relative, FoldUntil, Lead, FoldAll;
      NothingBefore(Lead(s));
    }
  }

  lemma OneUpWritten(s: string, t: string)
    requires Lead(t) == Lead(s)
    requires FoldAll(EMPTY, Segments(s), false) == FoldAll(Fold(1, []), Segments(t), false)
    ensures Written(s) == "../" + Written(t)
  {
    hide Segments, Lead, FoldAll;
    FoldAllFrom(1, Segments(t), [], false);
    var f := FoldAll(EMPTY, Segments(t), false);
    JoinCons("../", Repeat(f.ups));
    hide Join, Repeat;
    var up, ups, lead, kept := "../", Join(Repeat(f.ups)), Lead(s), Join(f.stack);
    assert up + ups + lead + kept == up + (ups + lead + kept);
  }

  /** For every path: the in-place recursion writes what the fold over its segments keeps, with names
      judged by their first characters. */
  lemma NormalizeFolds(s: string)
    ensures Normalize(s) == OrDot(Written(s))
  {
    ClimbWrites(s);
  }
}
