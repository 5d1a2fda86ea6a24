/** The path normaliser on values: what the recursive function does to the text behind its pointer,
    and the reading of a path as a list of segments. */
module PathText {

  /** Length of the name at the start of `s`: everything before the first slash. */
  function NameLen(s: string): (n: nat)
    ensures n <= |s| && '/' !in s[..n] && (n < |s| ==> s[n] == '/')
  {
    if s == "" || s[0] == '/' then 0
    else
      var n := 1 + NameLen(s[1..]);
      assert s[..n] == [s[0]] + s[1..][..n - 1];
      n
  }

  /** Number of slashes at the start of `s`. */
  function SlashRun(s: string): (n: nat)
    ensures n <= |s| && (forall i :: 0 <= i < n ==> s[i] == '/') && (n < |s| ==> s[n] != '/')
  {
    if s == "" || s[0] != '/' then 0 else 1 + SlashRun(s[1..])
  }

  /** `restore_coupler`: a run of slashes at the start becomes one. */
  function Coupled(s: string): (t: string)
    ensures |t| <= |s| && (s != "" ==> t != "" && t[0] == s[0]) && (|t| > 1 && t[0] == '/' ==> t[1] != '/')
  {
    if SlashRun(s) > 1 then s[SlashRun(s) - 1..] else s
  }

  /** The slash at the start of `s`, if there is one. */
  function Lead(s: string): string {
    if s != "" && s[0] == '/' then "/" else ""
  }

  /** `s` without its leading slashes. */
  function Body(s: string): (t: string)
    ensures |t| <= |s| && (t != "" ==> t[0] != '/') && (s != "" && s[0] == '/' ==> |t| < |s|)
  {
    s[SlashRun(s)..]
  }

  lemma CoupledParts(s: string)
    ensures Coupled(s) == Lead(s) + Body(s)
    ensures |Lead(s)| == if SlashRun(s) > 0 then 1 else 0
  {
  }

  predicate StartsUp(s: string) { |s| >= 2 && s[0] == '.' && s[1] == '.' }

  predicate StartsHere(s: string) { |s| >= 1 && s[0] == '.' }

  /** The first name of `s` with the slash behind it, and the text after it. */
  function Head(s: string): string { s[..NameLen(s)] + Lead(s[NameLen(s)..]) }

  function Tail(s: string): string { Body(s[NameLen(s)..]) }

  /** `normalize_relative_path` on the text `s`: the text it leaves, and whether a `..` is still to
      be cancelled by what precedes the text. */
  function Relative(s: string): (r: (string, bool))
    ensures |r.0| <= |s| && (r.1 ==> |r.0| < |s|)
    decreases |s|
  {
    if s == "" then ("", false)
    else
      var t := Body(s);
      assert t != "" ==> NameLen(t) > 0;
      var r :=
        if StartsUp(t) then (Tail(t), true)
        else if StartsHere(t) then Relative(Tail(t))
        else
          var inner := Relative(Tail(t));
          if inner.1 then Relative(inner.0) else (Head(t) + inner.0, false);
      assert |Head(t)| + |Tail(t)| <= |t| && |Lead(s)| + |t| <= |s|;
      (Lead(s) + r.0, r.1)
  }

  /** The loop of `normalize_path`: each `..` left over is written in front. */
  function Climb(s: string): string
    decreases |s|
  {
    var r := Relative(s);
    if r.1 then "../" + Climb(r.0) else r.0
  }

  function Normalize(s: string): string {
    if Climb(s) == "" then "./" else Climb(s)
  }

  /** One call of the recursive function on a text with a name in it. */
  lemma RelativeUnfold(s: string)
    requires Body(s) != ""
    ensures var t := Body(s); var inner := Relative(Tail(t));
            && |Tail(t)| < |s| && |inner.0| < |s| && t[0] != '/'
            && Relative(s) ==
                 (var r := if StartsUp(t) then (Tail(t), true)
                           else if StartsHere(t) then inner
                           else if inner.1 then Relative(inner.0)
                           else (Head(t) + inner.0, false);
                  (Lead(s) + r.0, r.1))
  {
  }

  /** How much shorter the text gets when a `..` is left over: three characters for a plain `../` in
      front, at least two when nothing but a leading slash remains, and otherwise four or more. */
  lemma {:induction false} LeftOverIsShort(s: string)
    requires Relative(s).1
    ensures var r := Relative(s).0;
            || |r| + 4 <= |s|
            || (r == Lead(s) && |r| + 2 <= |s|)
            || (exists tail :: UpBefore(s, tail) && r == Lead(s) + tail)
    ensures Relative(s).0 == Lead(s) && |Relative(s).0| + 2 == |s| ==> s == Lead(s) + ".."
    decreases |s|
  {
    var t := Body(s);
    if t != "" {
      RelativeUnfold(s);
      CoupledParts(s);
      TailIsShort(t);
      if StartsUp(t) { PlainUp(s); }
      hide Relative, NameLen, SlashRun, Body, Tail, Head, Coupled;
      var inner := Relative(Tail(t));
      if StartsUp(t) {
        assert Tail(t) == "" ==> Lead(s) + Tail(t) == Lead(s);
      } else if StartsHere(t) {
        LeftOverIsShort(Tail(t));
        ShorterByTwo(Tail(t), inner.0);
      } else if inner.1 {
        LeftOverIsShort(inner.0);
        ShorterByTwo(inner.0, Relative(inner.0).0);
      }
    }
  }

  /** A leading slash, if there is one, a `../`, and a text that goes on with a name. */
  predicate UpBefore(s: string, tail: string) {
    s == Lead(s) + "../" + tail && tail != "" && tail[0] != '/'
  }

  lemma ShorterByTwo(s: string, r: string)
    requires |r| + 4 <= |s| || (r == Lead(s) && |r| + 2 <= |s|) || (exists tail :: UpBefore(s, tail) && r == Lead(s) + tail)
    ensures |r| + 2 <= |s|
  {
  }

  /** Dropping a `..` in front takes more than three characters, unless it is a plain `../` or nothing
      follows. */
  lemma PlainUp(s: string)
    requires var t := Body(s); t != "" && StartsUp(t)
    ensures var t := Body(s);
            var r := Lead(s) + Tail(t);
            && (Tail(t) != "" ==> |r| + 4 <= |s| || UpBefore(s, Tail(t)))
            && (Tail(t) == "" && |r| + 2 == |s| ==> s == Lead(s) + "..")
            && |r| + 2 <= |s|
  {
  }

  /** Dropping the first name takes its characters and, when text follows, a slash. */
  lemma TailIsShort(t: string)
    requires t != "" && t[0] != '/'
    ensures |Tail(t)| + 1 <= |t| && (Tail(t) != "" ==> |Tail(t)| + 2 <= |t|)
    ensures StartsUp(t) ==> |t| >= 2 && (Tail(t) != "" ==> |Tail(t)| + 3 <= |t|)
  {
    CoupledParts(t[NameLen(t)..]);
    assert NameLen(t) > 0;
    assert StartsUp(t) ==> NameLen(t) >= 2;
  }

  // ---------------------------------------------------------------------------------------------
  // Segments
  // ---------------------------------------------------------------------------------------------

  /** The names of a path in order, each with the slash that follows it; only the last may lack it. */
  function Segments(s: string): seq<string>
    decreases |s|
  {
    var t := Body(s);
    if t == "" then [] else assert NameLen(t) > 0; [Head(t)] + Segments(Tail(t))
  }

  function Join(segments: seq<string>): string {
    if segments == [] then "" else segments[0] + Join(segments[1..])
  }

  lemma {:induction false} SegmentsBody(s: string)
    ensures Segments(Body(s)) == Segments(s)
  {
    assert Body(Body(s)) == Body(s);
  }
}
