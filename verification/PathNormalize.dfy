/** The path normaliser as it runs: a NUL-terminated text in an array, shifted in place by loops and by
    a recursion whose effect is the mutation. Pointers are offsets into the array. */
module PathNormalize {
  import opened PathText
  import opened PathGrowth

  const NUL: char := '\0'

  /** The NUL-terminated text at offset `p` is `s`. */
  ghost predicate StringAt(cells: seq<char>, p: nat, s: string) {
    p + |s| < |cells| && cells[p..p + |s|] == s && cells[p + |s|] == NUL && NUL !in s
  }

  lemma CharAt(cells: seq<char>, p: nat, s: string, i: nat)
    requires StringAt(cells, p, s) && i <= |s|
    ensures p + |s| < |cells| && cells[p + i] == if i < |s| then s[i] else NUL
    ensures i < |s| ==> s[i] != NUL
  {
    if i < |s| {
      assert cells[p..p + |s|][i] == s[i];
      assert s[i] in s;
    }
  }

  lemma SuffixAt(cells: seq<char>, p: nat, s: string, n: nat)
    requires StringAt(cells, p, s) && n <= |s|
    ensures StringAt(cells, p + n, s[n..])
  {
    assert forall c <- s[n..] :: c in s;
  }

  /** The cells before `p` are the same. */
  ghost predicate Same(before: seq<char>, after: seq<char>, p: nat) {
    |before| == |after| && forall i :: 0 <= i < p && i < |before| ==> after[i] == before[i]
  }

  /** The characters of `x`, none of them NUL, stand at `p`. */
  ghost predicate Has(cells: seq<char>, p: nat, x: string) {
    p + |x| <= |cells| && cells[p..p + |x|] == x && NUL !in x
  }

  lemma SameTrans(a: seq<char>, b: seq<char>, c: seq<char>, p: nat, q: nat)
    requires Same(a, b, p) && Same(b, c, q) && p <= q
    ensures Same(a, c, p)
  {
  }

  lemma HasKept(a: seq<char>, b: seq<char>, p: nat, x: string)
    requires Has(a, p, x) && Same(a, b, p + |x|)
    ensures Has(b, p, x)
  {
  }

  lemma HasConcat(cells: seq<char>, p: nat, x: string, y: string)
    requires Has(cells, p, x) && Has(cells, p + |x|, y)
    ensures Has(cells, p, x + y)
  {
  }

  /** A text put together from a part already in place and a text behind it. */
  lemma PrefixAt(cells: seq<char>, p: nat, x: string, s: string)
    requires Has(cells, p, x) && StringAt(cells, p + |x|, s)
    ensures StringAt(cells, p, x + s)
  {
    assert cells[p..p + |x| + |s|] == cells[p..p + |x|] + cells[p + |x|..p + |x| + |s|];
  }

  /** `read_name`: the next slash or the end. */
  method ReadName(path: array<char>, p: nat, ghost s: string) returns (q: nat)
    requires StringAt(path[..], p, s)
    ensures q == p + NameLen(s)
  {
    q := p;
    ghost var n := 0;
    CharAt(path[..], p, s, 0);
    while path[q] != NUL && path[q] != '/'
      invariant n <= |s| && q == p + n < path.Length && n + NameLen(s[n..]) == NameLen(s)
      invariant path[q] == (if n < |s| then s[n] else NUL) && (n < |s| ==> s[n] != NUL)
      decreases |s| - n
    {
      assert s[n..][1..] == s[n + 1..];
      q, n := q + 1, n + 1;
      CharAt(path[..], p, s, n);
    }
  }

  /** `strlen_`. */
  method StrLen(path: array<char>, p: nat, ghost s: string) returns (n: nat)
    requires StringAt(path[..], p, s)
    ensures n == |s|
  {
    n := 0;
    CharAt(path[..], p, s, 0);
    while path[p + n] != NUL
      invariant n <= |s| && p + n < path.Length && (n < |s| ==> path[p + n] != NUL)
      invariant n == |s| ==> path[p + n] == NUL
      decreases |s| - n
    {
      n := n + 1;
      CharAt(path[..], p, s, n);
    }
  }

  /** `s` and `literal` agree on their first `n` characters, and both have that many. */
  predicate Matches(s: string, literal: string, n: nat) {
    n <= |s| && n <= |literal| && s[..n] == literal[..n]
  }

  /** `strncmp_` against a literal: zero when the first `n` characters agree and none is missing. */
  method StrNCmp(path: array<char>, p: nat, literal: string, n: nat, ghost s: string) returns (r: int)
    requires StringAt(path[..], p, s)
    ensures r == if Matches(s, literal, n) then 0 else 1
  {
    for i := 0 to n
      invariant i <= |s| && i <= |literal| && s[..i] == literal[..i]
    {
      CharAt(path[..], p, s, i);
      if path[p + i] == NUL || i == |literal| { return 1; }
      if path[p + i] != literal[i] {
        assert n <= |s| && n <= |literal| ==> s[..n][i] != literal[..n][i];
        return 1;
      }
    }
    return 0;
  }

  /** `strncpy_` from a literal. */
  method StrNCpy(path: array<char>, p: nat, literal: string, n: nat)
    requires n <= |literal| && p + n <= path.Length
    modifies path
    ensures path[p..p + n] == literal[..n]
    ensures forall i :: 0 <= i < path.Length && !(p <= i < p + n) ==> path[i] == old(path[i])
  {
    for i := 0 to n
      invariant forall j :: 0 <= j < i ==> path[p + j] == literal[j]
      invariant forall j :: 0 <= j < path.Length && !(p <= j < p + i) ==> path[j] == old(path[j])
    {
      path[p + i] := literal[i];
    }
  }

  /** `shift_path` to the left: the first `shift` characters disappear. */
  method ShiftLeft(path: array<char>, p: nat, shift: nat, ghost s: string)
    requires StringAt(path[..], p, s) && shift <= |s|
    modifies path
    ensures StringAt(path[..], p, s[shift..])
    ensures Same(old(path[..]), path[..], p)
  {
    hide *;
    var q := p;
    ghost var before := path[..];
    CharAt(before, p, s, |s|);
    while true
      invariant p <= q <= p + |s| - shift
      invariant forall i :: p <= i < q ==> path[i] == before[i + shift]
      invariant forall i :: 0 <= i < path.Length && !(p <= i < q) ==> path[i] == before[i]
      decreases p + |s| - q
    {
      path[q] := path[q + shift];
      CharAt(before, p, s, q + shift - p);
      q := q + 1;
      if path[q - 1] == NUL { break; }
    }
    Shifted(before, path[..], p, p + shift, s, s[shift..]);
    SameIf(before, path[..], p);
  }

  lemma SameIf(before: seq<char>, after: seq<char>, p: nat)
    requires |before| == |after| && forall i :: 0 <= i < |before| && i < p ==> after[i] == before[i]
    ensures Same(before, after, p)
  {
  }

  /** The characters of `s[k..]`, terminator included, found at another place. */
  lemma Shifted(before: seq<char>, after: seq<char>, p: nat, q: nat, s: string, t: string)
    requires |t| <= |s| && t == s[|s| - |t|..] && q >= |s| - |t| && StringAt(before, q + |t| - |s|, s)
    requires p + |t| < |after| && forall i :: p <= i <= p + |t| ==> after[i] == before[i - p + q]
    ensures StringAt(after, p, t)
  {
    var k := |s| - |t|;
    forall i | 0 <= i <= |t| ensures after[p + i] == if i < |t| then t[i] else NUL {
      CharAt(before, q - k, s, k + i);
    }
    assert forall c <- t :: c in s;
  }

  /** `shift_path` to the right: the whole text moves, terminator first. */
  method ShiftRight(path: array<char>, p: nat, shift: nat, ghost s: string)
    requires StringAt(path[..], p, s) && p + |s| + shift < path.Length
    modifies path
    ensures StringAt(path[..], p + shift, s)
    ensures Same(old(path[..]), path[..], p)
  {
    var n := StrLen(path, p, s);
    ghost var before := path[..];
    MoveRight(path, p, shift, n);
    Shifted(before, path[..], p + shift, p, s, s);
  }

  /** The loop: from the terminator down to `p`, each character moves by `shift`. */
  method MoveRight(path: array<char>, p: nat, shift: nat, n: nat)
    requires p + n + shift < path.Length
    modifies path
    ensures forall j :: p + shift <= j <= p + n + shift ==> path[j] == old(path[j - shift])
    ensures Same(old(path[..]), path[..], p)
  {
    var end := p + n;
    while end >= p
      invariant p - 1 <= end <= p + n
      invariant forall j :: end + shift < j <= p + n + shift ==> path[j] == old(path[j - shift])
      invariant forall j :: 0 <= j <= end + shift && j < path.Length ==> path[j] == old(path[j])
      decreases end + 1 - p
    {
      path[end + shift] := path[end];
      end := end - 1;
    }
  }

  /** `restore_coupler`: leading slashes become one; the result says how many are left. */
  method RestoreCoupler(path: array<char>, p: nat, ghost s: string) returns (r: nat)
    requires StringAt(path[..], p, s)
    modifies path
    ensures StringAt(path[..], p, Coupled(s)) && r == |Lead(s)|
    ensures Same(old(path[..]), path[..], p)
  {
    hide StringAt, Same, SlashRun;
    var q := p;
    ghost var n := 0;
    CharAt(path[..], p, s, 0);
    SameReflexive(path[..], p);
    while path[q] == '/'
      invariant n <= |s| && q == p + n && forall i :: 0 <= i < n ==> s[i] == '/'
      invariant path[q] == (if n < |s| then s[n] else NUL)
      invariant path[..] == old(path[..])
      decreases |s| - n
    {
      q, n := q + 1, n + 1;
      CharAt(path[..], p, s, n);
    }
    CoupledIs(s, n);
    var coupler := q - p;
    if coupler > 1 {
      ShiftLeft(path, p, coupler - 1, s);
    }
    return if coupler > 0 then 1 else 0;
  }

  /** `normalize_relative_path`: the recursion does to the array what `Relative` does to the text;
      nothing before the pointer is touched. */
  method NormalizeRelativePath(path: array<char>, p: nat, ghost s: string) returns (r: int)
    requires StringAt(path[..], p, s)
    modifies path
    ensures StringAt(path[..], p, Relative(s).0) && r == if Relative(s).1 then 1 else 0
    ensures Same(old(path[..]), path[..], p)
    decreases |s|, 1
  {
    hide Relative, Head, Tail, Body, Lead, Coupled, Left, StartsUp, StartsHere, StringAt, Has, Same, Matches;
    CharAt(path[..], p, s, 0);
    if path[p] == NUL {
      NothingThere(path[..], p, s);
      return 0;
    }
    RelativeCall(s);
    var lead := RestoreCoupler(path, p, s);
    var begin := p + lead;
    SplitAt(path[..], p, s, lead);
    ghost var before := path[..];
    r := NormalizeBehindSlash(path, begin, s);
    SameTrans(old(path[..]), before, path[..], p, begin);
    HasKept(before, path[..], p, Lead(s));
    PrefixAt(path[..], p, Lead(s), Left(s));
  }

  lemma NothingThere(cells: seq<char>, p: nat, s: string)
    requires s == ""
    ensures Relative(s) == (s, false) && Same(cells, cells, p)
  {
  }

  /** The rest of the function, behind the leading slash of `s`. */
  method NormalizeBehindSlash(path: array<char>, begin: nat, ghost s: string) returns (r: int)
    requires s != "" && StringAt(path[..], begin, Body(s))
    modifies path
    ensures StringAt(path[..], begin, Left(s)) && r == if Relative(s).1 then 1 else 0
    ensures Same(old(path[..]), path[..], begin)
    decreases |s|, 0
  {
    ghost var t := Body(s);
    RelativeCall(s);
    LeftCases(s);
    hide Relative, Head, Tail, Body, Left, StartsUp, StartsHere, StringAt, Has, Same, Matches;
    var tail := PassName(path, begin, t);
    ghost var passed := path[..];
    r := NormalizeBehindFirst(path, begin, tail, Head(t), Tail(t));
    SameTrans(old(path[..]), passed, path[..], begin, begin);
  }

  /** The three cases: the first name is dropped for `..` and `.`, and kept or cancelled otherwise. */
  method NormalizeBehindFirst(path: array<char>, begin: nat, tail: nat, ghost h: string, ghost rest: string)
    returns (r: int)
    requires tail == begin + |h| && Has(path[..], begin, h) && StringAt(path[..], tail, rest)
    modifies path
    ensures Same(old(path[..]), path[..], begin)
    ensures var up, here, inner := Matches(h + rest, "..", 2), Matches(h + rest, ".", 1), Relative(rest);
            && r == (if up || (if here then inner.1 else inner.1 && Relative(inner.0).1) then 1 else 0)
            && StringAt(path[..], begin,
                 if up then rest else if here then inner.0 else if inner.1 then Relative(inner.0).0 else h + inner.0)
    decreases |rest|, 3
  {
    hide Relative, StringAt, Has, Same, Matches;
    ghost var passed := path[..];
    PrefixAt(passed, begin, h, rest);
    var up := StrNCmp(path, begin, "..", 2, h + rest);
    if up == 0 {
      Drop(path, begin, tail - begin, h, rest);
      return 1;
    }
    var here := StrNCmp(path, begin, ".", 1, h + rest);
    if here == 0 {
      Drop(path, begin, tail - begin, h, rest);
      ghost var dropped := path[..];
      r := NormalizeRelativePath(path, begin, rest);
      SameTrans(passed, dropped, path[..], begin, begin);
      return;
    }
    r := NormalizeBehindName(path, begin, tail, h, rest);
  }

  /** The last branch: the text behind the name is normalised first, and if a `..` is left over from
      it, the name goes and the rest is normalised in its place. */
  method NormalizeBehindName(path: array<char>, begin: nat, tail: nat, ghost h: string, ghost rest: string)
    returns (r: int)
    requires tail == begin + |h| && Has(path[..], begin, h) && StringAt(path[..], tail, rest)
    modifies path
    ensures Same(old(path[..]), path[..], begin)
    ensures var inner := Relative(rest);
            && r == (if inner.1 && Relative(inner.0).1 then 1 else 0)
            && StringAt(path[..], begin, if inner.1 then Relative(inner.0).0 else h + inner.0)
    decreases |rest|, 2
  {
    hide Relative, StringAt, Has, Same;
    ghost var before := path[..];
    ghost var inner := Relative(rest);
    r := NormalizeRelativePath(path, tail, rest);
    ghost var done := path[..];
    SameReflexive(before, begin);
    SameTrans(before, before, done, begin, tail);
    HasKept(before, done, begin, h);
    PrefixAt(done, begin, h, inner.0);
    if r != 0 {
      Drop(path, begin, tail - begin, h, inner.0);
      ghost var dropped := path[..];
      SameTrans(before, done, dropped, begin, begin);
      r := NormalizeRelativePath(path, begin, inner.0);
      SameTrans(before, dropped, path[..], begin, begin);
    }
  }

  /** `shift_path` over a part that is known. */
  method Drop(path: array<char>, p: nat, shift: nat, ghost x: string, ghost s: string)
    requires StringAt(path[..], p, x + s) && shift == |x|
    modifies path
    ensures StringAt(path[..], p, s) && Same(old(path[..]), path[..], p)
  {
    assert (x + s)[|x|..] == s;
    ShiftLeft(path, p, shift, x + s);
  }

  /** `read_name` and `restore_coupler` together: past the first name and its slash. */
  method PassName(path: array<char>, p: nat, ghost t: string) returns (q: nat)
    requires StringAt(path[..], p, t)
    modifies path
    ensures Same(old(path[..]), path[..], p) && q == p + |Head(t)| <= path.Length && Has(path[..], p, Head(t))
    ensures StringAt(path[..], q, Tail(t))
  {
    hide NameLen, Head, Tail, Coupled, StringAt, Has, Same, Lead, Body;
    var name := ReadName(path, p, t);
    ghost var n := NameLen(t);
    ghost var before := path[..];
    SuffixAt(before, p, t, n);
    var slash := RestoreCoupler(path, name, t[n..]);
    q := name + slash;
    NamePassed(before, path[..], p, t, n);
  }

  /** With the slashes behind it coupled, the first name and its slash stand in place, and the tail
      behind them. */
  lemma NamePassed(before: seq<char>, after: seq<char>, p: nat, t: string, n: nat)
    requires StringAt(before, p, t) && n == NameLen(t)
    requires StringAt(after, p + n, Coupled(t[n..])) && Same(before, after, p + n)
    ensures p + |Head(t)| == p + n + |Lead(t[n..])| <= |after| && Has(after, p, Head(t))
    ensures StringAt(after, p + |Head(t)|, Tail(t)) && Same(before, after, p)
  {
    hide NameLen, Coupled, Lead, Body, Head, Tail, StringAt, Has, Same;
    HeadAndTail(t);
    HasPart(before, p, t, n);
    SplitAt(after, p + n, t[n..], |Lead(t[n..])|);
    HasKept(before, after, p, t[..n]);
    HasConcat(after, p, t[..n], Lead(t[n..]));
    SameReflexive(before, p);
    SameTrans(before, before, after, p, p + n);
  }

  lemma HeadAndTail(t: string)
    ensures var n := NameLen(t); Head(t) == t[..n] + Lead(t[n..]) && Tail(t) == Body(t[n..])
  {
  }

  lemma CoupledIs(s: string, n: nat)
    requires n <= |s| && (forall i :: 0 <= i < n ==> s[i] == '/') && (n < |s| ==> s[n] != '/')
    ensures Coupled(s) == (if n > 1 then s[n - 1..] else s) && |Lead(s)| == if n > 0 then 1 else 0
  {
  }

  lemma SameReflexive(cells: seq<char>, p: nat)
    ensures Same(cells, cells, p)
  {
  }

  lemma HasPart(cells: seq<char>, p: nat, t: string, n: nat)
    requires StringAt(cells, p, t) && n <= |t|
    ensures Has(cells, p, t[..n])
  {
    assert cells[p..p + n] == cells[p..p + |t|][..n];
    assert forall c <- t[..n] :: c in t;
  }

  lemma SplitAt(cells: seq<char>, p: nat, s: string, lead: nat)
    requires StringAt(cells, p, Coupled(s)) && lead == |Lead(s)|
    ensures Has(cells, p, Lead(s)) && p + lead <= |cells|
    ensures StringAt(cells, p + lead, Body(s))
  {
    CoupledParts(s);
    hide Coupled, Body, Lead;
    SuffixAt(cells, p, Coupled(s), lead);
    HasPart(cells, p, Coupled(s), lead);
    assert Coupled(s)[lead..] == Body(s) && Coupled(s)[..lead] == Lead(s);
  }

  /** What the recursive function leaves behind the leading slash. */
  function Left(s: string): string {
    var t := Body(s);
    if StartsUp(t) then Tail(t)
    else if StartsHere(t) then Relative(Tail(t)).0
    else if Relative(Tail(t)).1 then Relative(Relative(Tail(t)).0).0
    else Head(t) + Relative(Tail(t)).0
  }

  lemma LeftCases(s: string)
    ensures var t := Body(s); var inner := Relative(Tail(t));
            Left(s) == (if StartsUp(t) then Tail(t) else if StartsHere(t) then inner.0
                        else if inner.1 then Relative(inner.0).0 else Head(t) + inner.0)
  {
  }

  /** One call on a text that is not empty, with the tests as they are made on the array. */
  lemma RelativeCall(s: string)
    requires s != ""
    ensures var t := Body(s); var inner := Relative(Tail(t)); var u := Head(t) + Tail(t);
            && |Tail(t)| < |s| && |inner.0| < |s|
            && (StartsUp(t) <==> Matches(u, "..", 2))
            && (StartsHere(t) <==> Matches(u, ".", 1))
            && Relative(s).0 == Lead(s) + Left(s)
            && Relative(s).1 == (StartsUp(t) || (if StartsHere(t) then inner.1 else inner.1 && Relative(inner.0).1))
  {
    if Body(s) == "" {
      PathSpec.EmptySegments(s);
    } else {
      RelativeUnfold(s);
    }
    TestsOnHead(Body(s));
  }

  lemma TestsOnHead(t: string)
    requires t == "" || t[0] != '/'
    ensures var u := Head(t) + Tail(t);
            && (StartsUp(t) <==> Matches(u, "..", 2))
            && (StartsHere(t) <==> Matches(u, ".", 1))
  {
    if t != "" {
      PathSpec.HeadKind(t);
      hide NameLen, SlashRun;
      var h := Head(t);
      assert 1 <= |h| && (|h| == 1 ==> Tail(t) == "");
      hide Head, Tail;
      assert ".."[..2] == ['.', '.'] && "."[..1] == ['.'];
      assert |h| >= 2 ==> (h + Tail(t))[..2] == h[..2] && h[..2] == [h[0], h[1]];
    }
  }

  /** `normalize_path`. It never needs more room than the longer of the text and the result. */
  method NormalizePath(path: array<char>, ghost s: string)
    requires StringAt(path[..], 0, s) && |Normalize(s)| < path.Length
    modifies path
    ensures StringAt(path[..], 0, Normalize(s))
    ensures path[..|Normalize(s)|] == Normalize(s) && path[|Normalize(s)|] == '\0'
  {
    hide StringAt, Has, Relative, Climb, Normalize, Climbing;
    TextInside(path[..], 0, s);
    var p := 0;
    ghost var cur, done := s, "";
    var r := NormalizeRelativePath(path, p, cur);
    StartClimbing(path[..], s);
    while r != 0
      invariant p == |done| && p + |cur| < path.Length && Climbing(path[..], s, cur, done)
      invariant r == if Relative(cur).1 then 1 else 0
      decreases |cur|
    {
      r := ClimbOut(path, p, s, cur, done);
      p := p + 3;
      cur, done := Relative(cur).0, done + "../";
    }
    DoneClimbing(path[..], s, cur, done);
    NormalizeIs(s);
    DotForNothing(path, Climb(s));
    TextAndEnd(path[..], Normalize(s));
  }

  /** `done` stands in front, and behind it what the recursion left of `cur`; together they climb as
      `s` does. */
  ghost predicate Climbing(cells: seq<char>, s: string, cur: string, done: string) {
    Climb(s) == done + Climb(cur) && Has(cells, 0, done) && StringAt(cells, |done|, Relative(cur).0)
  }

  lemma StartClimbing(cells: seq<char>, s: string)
    requires StringAt(cells, 0, Relative(s).0)
    ensures Climbing(cells, s, s, "")
  {
    assert "" + Climb(s) == Climb(s);
    HasNothing(cells);
  }

  lemma DoneClimbing(cells: seq<char>, s: string, cur: string, done: string)
    requires Climbing(cells, s, cur, done) && !Relative(cur).1
    ensures StringAt(cells, 0, Climb(s))
  {
    hide StringAt, Has, Climb;
    PrefixAt(cells, 0, done, Relative(cur).0);
    ClimbOnce(cur);
  }

  /** One round of the loop: `../` goes in front and the rest is normalised behind it. */
  method ClimbOut(path: array<char>, p: nat, ghost s: string, ghost cur: string, ghost done: string) returns (r: int)
    requires Climbing(path[..], s, cur, done) && Relative(cur).1 && p == |done|
    requires |Normalize(s)| < path.Length && p + |cur| < path.Length
    modifies path
    ensures var t := Relative(cur).0;
            && |t| < |cur| && p + 3 + |t| < path.Length && r == (if Relative(t).1 then 1 else 0)
            && Climbing(path[..], s, t, done + "../")
  {
    hide StringAt, Has, Same, Relative, Climb, Normalize;
    ghost var t, before := Relative(cur).0, path[..];
    OneMoreUp(s, done, cur);
    InsertUp(path, p, t);
    ghost var inserted := path[..];
    HasKept(before, inserted, 0, done);
    HasConcat(inserted, 0, done, "../");
    r := NormalizeRelativePath(path, p + 3, t);
    HasKept(inserted, path[..], 0, done + "../");
  }

  lemma TextAndEnd(cells: seq<char>, s: string)
    requires StringAt(cells, 0, s)
    ensures |s| < |cells| && cells[..|s|] == s && cells[|s|] == '\0'
  {
  }

  lemma TextInside(cells: seq<char>, p: nat, s: string)
    requires StringAt(cells, p, s)
    ensures p + |s| < |cells|
  {
  }

  lemma NormalizeIs(s: string)
    ensures Normalize(s) == if Climb(s) == "" then "./" else Climb(s)
  {
  }

  /** The end of `normalize_path`. */
  method DotForNothing(path: array<char>, ghost s: string)
    requires StringAt(path[..], 0, s) && (s == "" ==> path.Length >= 3)
    modifies path
    ensures StringAt(path[..], 0, if s == "" then "./" else s)
  {
    hide StringAt, Has, Same;
    var n := StrLen(path, 0, s);
    if n == 0 {
      StrNCpy(path, 0, "./" + [NUL], 3);
      DotWritten(path[..]);
    }
  }

  /** Making room for `../` in front of the text, and writing it there. */
  method InsertUp(path: array<char>, p: nat, ghost t: string)
    requires StringAt(path[..], p, t) && p + |t| + 3 < path.Length
    modifies path
    ensures Same(old(path[..]), path[..], p) && Has(path[..], p, "../") && StringAt(path[..], p + 3, t)
  {
    ShiftRight(path, p, 3, t);
    ghost var shifted := path[..];
    StrNCpy(path, p, "../", 3);
    assert path[..][p + 3..p + 3 + |t|] == shifted[p + 3..p + 3 + |t|];
    assert "../"[..3] == "../";
  }

  lemma HasNothing(cells: seq<char>)
    ensures Has(cells, 0, "")
  {
  }

  lemma DotWritten(cells: seq<char>)
    requires |cells| >= 3 && cells[0..0 + 3] == ("./" + [NUL])[..3]
    ensures StringAt(cells, 0, "./")
  {
    assert cells[0..2] == cells[0..3][..2] == "./";
    assert cells[2] == cells[0..3][2] == NUL;
  }

  lemma OneMoreUp(s: string, done: string, cur: string)
    requires Climb(s) == done + Climb(cur) && Relative(cur).1
    ensures Climb(s) == done + "../" + Climb(Relative(cur).0)
    ensures var peak := |done| + 3 + |Relative(cur).0|; peak <= |done| + |cur| || peak <= |Normalize(s)|
  {
    hide Relative;
    LeftOverIsShort(cur);
    if Relative(cur).0 == Lead(cur) {
      LeadLeavesNothing(cur);
    }
    assert Climb(cur) == "../" + Climb(Relative(cur).0);
    assert done + ("../" + Climb(Relative(cur).0)) == done + "../" + Climb(Relative(cur).0);
  }
}
