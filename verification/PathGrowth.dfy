/** How long a normalised path can get. */
module PathGrowth {
  import opened PathText
  import opened PathSpec

  /** Nothing but `..` between single slashes, the last one without a slash behind it. */
  predicate OnlyUps(s: string)
    decreases |s|
  {
    var k := |Lead(s)| + 3;
    s == Lead(s) + ".." || (k < |s| && UpBefore(s, s[k..]) && OnlyUps(Lead(s) + s[k..]))
  }

  lemma BodyAfterLead(s: string, t: string)
    requires s == Lead(s) + t && t != "" && t[0] != '/'
    ensures Body(s) == t && Lead(Lead(s) + t) == Lead(s)
  {
    assert Lead(s) != "" ==> s[0] == '/' && s[1..] == t;
  }

  lemma LeadKept(s: string, tail: string)
    requires tail != "" && tail[0] != '/'
    ensures Lead(Lead(s) + tail) == Lead(s) && |Lead(s)| <= 1
  {
  }

  lemma HeadOfUp(tail: string)
    requires tail != "" && tail[0] != '/'
    ensures Tail("../" + tail) == tail && Tail("..") == ""
  {
    var t, u, w := "../" + tail, "./" + tail, "/" + tail;
    assert t[1..] == u && u[1..] == w && w[1..] == tail;
    assert NameLen(w) == 0 && NameLen(u) == 1 && NameLen(t) == 2;
    assert t[2..] == w && SlashRun(w) == 1;
    assert ".."[1..] == "." && "."[1..] == "";
    assert NameLen("..") == 2;
  }

  /** A plain `..` in front is left over and costs just its own characters. */
  lemma PlainUpIsLeft(s: string, tail: string)
    requires UpBefore(s, tail)
    ensures Relative(s) == (Lead(s) + tail, true) && Lead(Lead(s) + tail) == Lead(s)
    ensures s != Lead(s) + ".." && s[|Lead(s)| + 3..] == tail
  {
    hide Head, Tail, Body, NameLen, SlashRun, Lead;
    assert Lead(s) + "../" + tail == Lead(s) + ("../" + tail);
    LeadKept(s, tail);
    BodyAfterLead(s, "../" + tail);
    BodyAfterLead(Lead(s) + tail, tail);
    HeadOfUp(tail);
  }

  lemma LastUpIsLeft(s: string)
    requires s == Lead(s) + ".."
    ensures Relative(s) == (Lead(s), true)
  {
    BodyAfterLead(s, "..");
    HeadOfUp("x");
    assert Lead(s) + "" == Lead(s);
  }

  lemma ClimbOnce(s: string)
    ensures Climb(s) == if Relative(s).1 then "../" + Climb(Relative(s).0) else Relative(s).0
  {
  }

  /** A text that is nothing but its leading slash has no `..` left over. */
  lemma LeadLeavesNothing(s: string)
    ensures Relative(Lead(s)) == (Lead(s), false) && Climb(Lead(s)) == Lead(s)
  {
    RelativeOfSlashes(Lead(s));
  }

  /** The path with its climbs written in front is longer than the path exactly for paths of nothing
      but `..`, and then by one character. */
  lemma {:induction false} ClimbGrowsExactly(s: string)
    ensures |Climb(s)| <= |s| + 1
    ensures |Climb(s)| == |s| + 1 <==> OnlyUps(s)
    decreases |s|
  {
    hide Relative, Climb;
    ClimbOnce(s);
    var r := Relative(s);
    var k := |Lead(s)| + 3;
    if s == Lead(s) + ".." {
      LastUpIsLeft(s);
      LeadLeavesNothing(s);
    } else if k < |s| && UpBefore(s, s[k..]) {
      PlainUpIsLeft(s, s[k..]);
      ClimbGrowsExactly(r.0);
    } else if r.1 {
      LeftOverIsShort(s);
      ClimbGrowsExactly(r.0);
      LeadLeavesNothing(s);
      if tail :| UpBefore(s, tail) && r.0 == Lead(s) + tail {
        PlainUpIsLeft(s, tail);
      }
    }
  }

  /** A normalised path is longer than the path exactly for paths of nothing but `..`, for the empty
      path and for a single dot. */
  lemma GrowsExactly(s: string)
    ensures |Normalize(s)| > |s| <==> OnlyUps(s) || s == "" || s == "."
    ensures |Normalize(s)| <= |s| + if s == "" then 2 else 1
  {
    ClimbGrowsExactly(s);
    if |s| == 1 && s != "." {
      OneCharacter(s);
    }
    if s == "." || s == "" {
      DotIsNothing();
    }
  }

  lemma OneCharacter(s: string)
    requires |s| == 1 && s != "."
    ensures Climb(s) == s
  {
    assert s[1..] == "";
    if s[0] == '/' {
      RelativeOfSlashes(s);
    } else {
      OneName(s);
    }
  }

  lemma OneName(s: string)
    requires |s| == 1 && s[0] != '.' && s[0] != '/'
    ensures Relative(s) == (s, false)
  {
    NoName();
    assert s[1..] == "" && NameLen(s) == 1 && Body(s) == s;
    assert Head(s) == s + "" && Tail(s) == "";
    hide Head, Tail, NameLen, Body;
    assert Relative("") == ("", false);
    assert s + "" == s && "" + s == s;
  }

  lemma DotIsNothing()
    ensures Climb("") == "" && Climb(".") == ""
  {
    NoName();
    RelativeOfSlashes("");
    assert "."[1..] == "";
    assert NameLen(".") == 1 && Body(".") == "." && Tail(".") == "" && Lead(".") == "";
    assert Relative(".") == ("", false);
  }
}
