/** What normalisation does to a path, step by step and on plain text. */
module PathLaws {
  import opened PathText
  import opened PathSpec
  import opened PathGrowth

  predicate NoSlash(x: string) { x != "" && '/' !in x }

  /** A name that the program keeps. */
  predicate Plain(x: string) { NoSlash(x) && x[0] != '.' }

  /** Text that goes on with a name, or ends. */
  predicate GoesOn(y: string) { y == "" || y[0] != '/' }

  lemma {:induction false} NameLenIs(x: string, z: string)
    requires '/' !in x && (z == "" || z[0] == '/')
    ensures NameLen(x + z) == |x|
  {
    if x == "" {
      assert x + z == z;
    } else {
      assert x[0] in x && (x + z)[1..] == x[1..] + z;
      assert forall c <- x[1..] :: c in x;
      NameLenIs(x[1..], z);
    }
  }

  /** The first name of a path, the slash behind it, and the rest. */
  lemma FirstName(x: string, y: string)
    requires NoSlash(x) && GoesOn(y)
    ensures var s := x + "/" + y; Body(s) == s && Lead(s) == "" && Head(s) == x + "/" && Tail(s) == y
  {
    var s := x + "/" + y;
    assert x[0] in x;
    assert s == x + ("/" + y);
    NameLenIs(x, "/" + y);
    assert s[..|x|] == x && s[|x|..] == "/" + y;
    assert ("/" + y)[1..] == y;
  }

  lemma OnlyName(x: string)
    requires NoSlash(x)
    ensures Body(x) == x && Lead(x) == "" && Head(x) == x && Tail(x) == ""
  {
    assert x[0] in x;
    assert x + "" == x;
    NameLenIs(x, "");
    assert x[..|x|] == x && x[|x|..] == "";
  }

  /** Doubled slashes count once. */
  lemma DoubleSlash(x: string, y: string)
    requires NoSlash(x)
    ensures Relative(x + "//" + y) == Relative(x + "/" + y)
    ensures Normalize(x + "//" + y) == Normalize(x + "/" + y)
  {
    hide Body, Head, Tail, Lead, Relative, Normalize;
    var s, t := x + "//" + y, x + "/" + y;
    assert s == x + ("//" + y) && t == x + ("/" + y);
    NameThenSlash(x, "//" + y);
    NameThenSlash(x, "/" + y);
    OneSlashLess(y);
    SameParts(s, t);
  }

  lemma NameThenSlash(x: string, z: string)
    requires NoSlash(x) && z != "" && z[0] == '/'
    ensures var s := x + z; Body(s) == s && Lead(s) == "" && Head(s) == x + "/" && Tail(s) == Body(z)
  {
    assert x[0] in x;
    NameLenIs(x, z);
    assert (x + z)[..|x|] == x && (x + z)[|x|..] == z;
  }

  lemma OneSlashLess(y: string)
    ensures Body("//" + y) == Body("/" + y)
  {
    var s := "//" + y;
    assert s[1..] == "/" + y;
    assert SlashRun(s) == 1 + SlashRun("/" + y);
  }

  lemma SameParts(s: string, t: string)
    requires Body(s) == s && Body(t) == t && s != "" && t != "" && Lead(s) == Lead(t)
    requires Head(s) == Head(t) && Tail(s) == Tail(t)
    ensures Relative(s) == Relative(t) && Normalize(s) == Normalize(t)
  {
    hide Body, Tail, Lead, Normalize;
    HeadKind(s);
    HeadKind(t);
    hide Head;
    RelativeUnfold(s);
    RelativeUnfold(t);
    hide Relative;
    SameResult(s, t);
  }

  /** One call of the recursive function, by what the text starts with. */
  lemma OneCall(x: string, y: string)
    requires GoesOn(y)
    ensures Relative("") == ("", false) && Relative(".") == ("", false) && Relative("..") == ("", true)
    ensures Relative("./" + y) == Relative(y) && Relative("../" + y) == (y, true)
    ensures Plain(x) ==> Relative(x) == (x, false)
    ensures Plain(x) ==>
              Relative(x + "/" + y) ==
              var rest := Relative(y); if rest.1 then Relative(rest.0) else (x + "/" + rest.0, false)
    ensures Relative("/" + y) == (if y == "" then ("/", false) else ("/" + Relative(y).0, Relative(y).1))
  {
    hide Relative;
    Dots(y);
    Slash(y);
    if Plain(x) {
      PlainName(x, y);
    }
  }

  lemma Dots(y: string)
    requires GoesOn(y)
    ensures Relative("") == ("", false) && Relative(".") == ("", false) && Relative("..") == ("", true)
    ensures Relative("./" + y) == Relative(y) && Relative("../" + y) == (y, true)
  {
    hide Relative, Body, Head, Tail, Lead;
    NothingLeft();
    SingleDots();
    assert "." + "/" + y == "./" + y && ".." + "/" + y == "../" + y;
    FirstName(".", y);
    FirstName("..", y);
    HereFirst("./" + y, y);
    UpFirst("../" + y, y);
  }

  lemma NothingLeft()
    ensures Relative("") == ("", false)
  {
  }

  lemma SingleDots()
    ensures Relative(".") == ("", false) && Relative("..") == ("", true)
  {
    hide Relative, Body, Head, Tail, Lead;
    NothingLeft();
    OnlyName(".");
    OnlyName("..");
    HereFirst(".", "");
    UpFirst("..", "");
  }

  lemma HereFirst(s: string, y: string)
    requires Body(s) == s && s != "" && s[0] == '.' && !StartsUp(s) && Lead(s) == "" && Tail(s) == y
    ensures Relative(s) == Relative(y)
  {
    hide Body, Head, Tail, Lead;
    RelativeUnfold(s);
    hide Relative;
    assert "" + Relative(y).0 == Relative(y).0;
  }

  lemma UpFirst(s: string, y: string)
    requires Body(s) == s && StartsUp(s) && Lead(s) == "" && Tail(s) == y
    ensures Relative(s) == (y, true)
  {
    hide Body, Head, Tail, Lead;
    RelativeUnfold(s);
    hide Relative;
    assert "" + y == y;
  }

  lemma NameFirst(s: string, h: string, y: string)
    requires Body(s) == s && s != "" && s[0] != '.' && Lead(s) == "" && Head(s) == h && Tail(s) == y
    ensures Relative(s) == var rest := Relative(y); if rest.1 then Relative(rest.0) else (h + rest.0, false)
  {
    hide Body, Head, Tail, Lead;
    RelativeUnfold(s);
    hide Relative;
    var rest := Relative(y);
    assert "" + (h + rest.0) == h + rest.0 && "" + Relative(rest.0).0 == Relative(rest.0).0;
  }

  lemma PlainName(x: string, y: string)
    requires Plain(x) && GoesOn(y)
    ensures Relative(x) == (x, false)
    ensures Relative(x + "/" + y) ==
            var rest := Relative(y); if rest.1 then Relative(rest.0) else (x + "/" + rest.0, false)
  {
    hide Relative, Body, Head, Tail, Lead;
    NothingLeft();
    OnlyName(x);
    FirstName(x, y);
    NameFirst(x, x, "");
    assert x + "" == x;
    assert (x + "/" + y)[0] == x[0];
    NameFirst(x + "/" + y, x + "/", y);
  }

  lemma Slash(y: string)
    requires GoesOn(y)
    ensures Relative("/" + y) == (if y == "" then ("/", false) else ("/" + Relative(y).0, Relative(y).1))
  {
    hide Relative;
    var s := "/" + y;
    if y == "" {
      SlashAlone();
    } else {
      assert s[1..] == y;
      SlashFirst(s, y);
    }
  }

  lemma SlashAlone()
    ensures Relative("/") == ("/", false) && "/" + "" == "/"
  {
    assert "/"[1..] == "";
    RelativeOfSlashes("/");
  }

  lemma SlashFirst(s: string, y: string)
    requires s == "/" + y && y != "" && y[0] != '/' && s[1..] == y
    ensures Relative(s) == ("/" + Relative(y).0, Relative(y).1)
  {
    assert Body(s) == y && Body(y) == y && Lead(s) == "/" && Lead(y) == "";
    hide Body, Head, Tail, Lead;
    RelativeUnfold(s);
    RelativeUnfold(y);
    hide Relative;
    var r := if StartsUp(y) then (Tail(y), true) else if StartsHere(y) then Relative(Tail(y))
             else if Relative(Tail(y)).1 then Relative(Relative(Tail(y)).0) else (Head(y) + Relative(Tail(y)).0, false);
    assert Relative(s) == ("/" + r.0, r.1) && Relative(y) == ("" + r.0, r.1);
    assert "" + r.0 == r.0;
  }

  /** Here, up, and a name taken back: the laws of the whole normalisation. */
  lemma Laws(x: string, y: string)
    requires GoesOn(y)
    ensures Normalize("") == "./" && (Plain(x) ==> Normalize(x) == x)
    ensures Normalize("./" + y) == Normalize(y)
    ensures Climb("../" + y) == "../" + Climb(y)
    ensures Plain(x) ==> Normalize(x + "/../" + y) == Normalize(y)
    ensures Plain(x) && !Relative(y).1 ==> Normalize(x + "/" + y) == x + "/" + Climb(y)
  {
    hide Relative, Climb, Normalize, Plain;
    OneCall(x, y);
    Written("");
    ClimbOnce("../" + y);
    SameResult("./" + y, y);
    if Plain(x) {
      TakenBack(x, y);
      KeptName(x, y);
    }
  }

  lemma Written(s: string)
    ensures !Relative(s).1 ==> Normalize(s) == if Relative(s).0 == "" then "./" else Relative(s).0
    ensures !Relative(s).1 ==> Climb(s) == Relative(s).0
  {
    hide Relative;
    ClimbOnce(s);
  }

  lemma SameResult(s: string, t: string)
    requires Relative(s) == Relative(t)
    ensures Normalize(s) == Normalize(t)
  {
    hide Relative, Climb;
    ClimbOnce(s);
    ClimbOnce(t);
  }

  lemma TakenBack(x: string, y: string)
    requires Plain(x) && GoesOn(y)
    ensures Normalize(x + "/../" + y) == Normalize(y)
  {
    hide Relative, Climb, Normalize;
    assert GoesOn("../" + y);
    Dots(y);
    PlainName(x, "../" + y);
    assert x + "/../" + y == x + "/" + ("../" + y);
    SameResult(x + "/../" + y, y);
  }

  lemma KeptName(x: string, y: string)
    requires Plain(x) && GoesOn(y)
    ensures Normalize(x) == x && (!Relative(y).1 ==> Normalize(x + "/" + y) == x + "/" + Climb(y))
  {
    hide Relative, Climb, Normalize;
    PlainName(x, y);
    Written(x);
    Written(y);
    Written(x + "/" + y);
  }
}
