/** The set-name slug of backend/utils/setNameUtils.ts. Its compiled copy,
    backend/dist/utils/setNameUtils.js, is the same chain of four steps and is
    modelled by the same definition: lower-case, delete apostrophes, delete
    colons, then turn every maximal white-space run into one hyphen. */
module SetNameSlug {
  import opened Text

  /** `.replace(/\s+/g, '-')`: every maximal run of white space becomes a single
      hyphen; every other character is kept in place. */
  function Collapse(s: string): (r: string)
    ensures NoSpace(r)
    ensures |r| <= |s|
    ensures forall c :: c in r ==> c in s || c == '-'
    ensures NoSpace(s) ==> r == s
    decreases |s|
  {
    if s == [] then []
    else if IsSpace(s[0]) then
      var rest := TrimStart(s);
      assert s[0] in s[..|s| - |rest|];
      "-" + Collapse(rest)
    else
      assert s[0] in s;
      [s[0]] + Collapse(s[1..])
  }

  /** The global regular-expression replacement as the engine performs it: one
      left-to-right pass that emits a hyphen on entering a white-space run and
      copies every other character. */
  method CollapseScan(s: string) returns (r: string)
    ensures r == Collapse(s)
  {
    r := [];
    var inRun := false;
    var i := 0;
    while i < |s|
      invariant 0 <= i <= |s|
      invariant r + Pending(s[i..], inRun) == Collapse(s)
    {
      PendingStep(s[i..], inRun);
      assert s[i..][1..] == s[i + 1..];
      ghost var rest := Pending(s[i + 1..], IsSpace(s[i]));
      var emit := if IsSpace(s[i]) then (if inRun then "" else "-") else [s[i]];
      AppendAssoc(r, emit, rest);
      r := r + emit;
      inRun := IsSpace(s[i]);
      i := i + 1;
    }
    assert s[i..] == [];
  }

  /** What is still to be emitted for the unread input `t`; inside a run the
      rest of the run has already been accounted for by one hyphen. */
  function Pending(t: string, inRun: bool): string {
    if inRun then Collapse(TrimStart(t)) else Collapse(t)
  }

  /** One step of the scan: the first unread character emits a hyphen (when it
      opens a run), nothing (when it continues one) or itself. */
  lemma PendingStep(t: string, inRun: bool)
    requires t != []
    ensures Pending(t, inRun)
         == (if IsSpace(t[0]) then (if inRun then "" else "-") else [t[0]]) + Pending(t[1..], IsSpace(t[0]))
  {
    if IsSpace(t[0]) {
      assert TrimStart(t) == TrimStart(t[1..]);
    } else {
      assert TrimStart(t) == t;
    }
  }

  /** Steps one to three: lower-case, then delete every apostrophe and every colon. */
  function Stripped(setName: string): (t: string)
    ensures |t| <= |setName|
    ensures '\'' !in t && ':' !in t && NoUpper(t)
  {
    Without(Without(Lower(setName), '\''), ':')
  }

  /** Step four applied to steps one to three. */
  function TransformSetName(setName: string): (slug: string)
    ensures '\'' !in slug && ':' !in slug
    ensures NoSpace(slug) && NoUpper(slug)
    ensures |slug| <= |setName|
  {
    Collapse(Stripped(setName))
  }

  /** A slug is its own slug. */
  lemma TransformIdempotent(setName: string)
    ensures TransformSetName(TransformSetName(setName)) == TransformSetName(setName)
  {
    var slug := TransformSetName(setName);
    LowerOfNoUpper(slug);
  }

  /** The characters that survive the slug unchanged apart from case: everything
      except white space, apostrophe, colon and hyphen (a hyphen in the input
      cannot be told apart from one the collapse inserts). */
  predicate Significant(c: char) {
    !IsSpace(c) && c != '\'' && c != ':' && c != '-'
  }

  /** Collapsing changes nothing a filter sees that ignores white space and hyphens. */
  lemma {:induction false} CollapseKeepsFiltered(s: string, keep: char -> bool)
    requires forall c :: IsSpace(c) ==> !keep(c)
    requires !keep('-')
    ensures Filter(Collapse(s), keep) == Filter(s, keep)
    decreases |s|
  {
    if s == [] {
    } else if IsSpace(s[0]) {
      var rest := TrimStart(s);
      var n := |s| - |rest|;
      assert s == s[..n] + rest;
      CollapseKeepsFiltered(rest, keep);
      FilterAppend(s[..n], rest, keep);
      FilterOfSpaces(s[..n], keep);
      assert ("-" + Collapse(rest))[1..] == Collapse(rest);
    } else {
      CollapseKeepsFiltered(s[1..], keep);
      assert ([s[0]] + Collapse(s[1..]))[1..] == Collapse(s[1..]);
    }
  }

  lemma {:induction false} FilterOfSpaces(s: string, keep: char -> bool)
    requires forall c :: IsSpace(c) ==> !keep(c)
    requires AllSpace(s)
    ensures Filter(s, keep) == []
    decreases |s|
  {
    if s != [] {
      assert s[0] in s;
      assert forall c :: c in s[1..] ==> c in s;
      FilterOfSpaces(s[1..], keep);
    }
  }

  /** Every significant character of the name reaches the slug, lower-cased and
      in its original order, and no other significant character appears. */
  lemma KeepsSignificantInOrder(setName: string)
    ensures Filter(TransformSetName(setName), Significant) == Filter(Lower(setName), Significant)
  {
    var a := Without(Lower(setName), '\'');
    var b := Without(a, ':');
    CollapseKeepsFiltered(b, Significant);
    FilterWithout(a, ':', Significant);
    FilterWithout(Lower(setName), '\'', Significant);
  }

  /** The number of maximal white-space runs, counted by looking at each
      character and its predecessor. */
  function RunsAfter(s: string, inRun: bool): nat
    decreases |s|
  {
    if s == [] then 0
    else (if IsSpace(s[0]) && !inRun then 1 else 0) + RunsAfter(s[1..], IsSpace(s[0]))
  }

  function Runs(s: string): nat {
    RunsAfter(s, false)
  }

  lemma {:induction false} RunsAfterRun(s: string)
    ensures RunsAfter(s, true) == Runs(TrimStart(s))
    decreases |s|
  {
    if s != [] && IsSpace(s[0]) {
      RunsAfterRun(s[1..]);
    }
  }

  /** Each maximal white-space run contributes exactly one hyphen: the slug has
      as many hyphens as the input had plus one per run. */
  lemma {:induction false} CollapseHyphenCount(s: string)
    ensures multiset(Collapse(s))['-'] == multiset(s)['-'] + Runs(s)
    decreases |s|
  {
    if s == [] {
    } else if IsSpace(s[0]) {
      var rest := TrimStart(s);
      var n := |s| - |rest|;
      assert s == s[..n] + rest;
      assert '-' !in s[..n] by {
        assert !IsSpace('-');
      }
      CollapseHyphenCount(rest);
      RunsAfterRun(s[1..]);
      assert TrimStart(s[1..]) == rest;
    } else {
      assert s == [s[0]] + s[1..];
      CollapseHyphenCount(s[1..]);
      if s[1..] != [] && IsSpace(s[1]) {
      }
      assert RunsAfter(s, false) == RunsAfter(s[1..], false);
    }
  }

  /** A leading white-space run after `p` collapses to one hyphen. */
  lemma CollapseSpacesThen(p: string, w: string)
    requires p != [] && AllSpace(p)
    requires w == [] || !IsSpace(w[0])
    ensures Collapse(p + w) == "-" + Collapse(w)
  {
    var s := p + w;
    assert s[0] == p[0] && p[0] in p;
    var rest := TrimStart(s);
    var d := |s| - |rest|;
    assert forall k :: 0 <= k < |p| ==> s[k] == p[k] && p[k] in p;
    assert forall k :: 0 <= k < d ==> s[..d][k] == s[k] && s[..d][k] in s[..d];
    assert rest != [] ==> rest[0] == s[d];
    assert w != [] ==> s[|p|] == w[0];
    assert d == |p|;
    assert rest == w;
  }

  /** No trimming: a name that starts with white space gives a slug that starts
      with a hyphen. */
  lemma LeadingSpaceKept(setName: string)
    requires setName != [] && IsSpace(setName[0])
    ensures TransformSetName(setName) != [] && TransformSetName(setName)[0] == '-'
  {
    var l := Lower(setName);
    var rest := Without(Without(l[1..], '\''), ':');
    assert l == [l[0]] + l[1..];
    WithoutAppend([l[0]], l[1..], '\'');
    WithoutAppend([l[0]], Without(l[1..], '\''), ':');
    assert Without(Without(l, '\''), ':') == [l[0]] + rest;
  }

  /** No trimming: a name that ends with white space gives a slug that ends
      with a hyphen. */
  lemma TrailingSpaceKept(setName: string)
    requires setName != [] && IsSpace(setName[|setName| - 1])
    ensures EndsWithHyphen(TransformSetName(setName))
  {
    var n := |setName| - 1;
    var last := setName[n..];
    assert setName == setName[..n] + last;
    assert AllSpace(last);
    StrippedAppend(setName[..n], last);
    StrippedSpaces(last);
    var front := Stripped(setName[..n]);
    assert Stripped(setName) == front + last;
    CollapseEndsWithHyphen(front + last);
  }

  /** The text ends with a hyphen. */
  predicate EndsWithHyphen(r: string) {
    r != [] && r[|r| - 1] == '-'
  }

  lemma HyphenEndAfter(a: string, c: string)
    requires EndsWithHyphen(c)
    ensures EndsWithHyphen(a + c)
  {
    assert (a + c)[|a + c| - 1] == c[|c| - 1];
  }

  lemma {:induction false} CollapseEndsWithHyphen(s: string)
    requires s != [] && IsSpace(s[|s| - 1])
    ensures EndsWithHyphen(Collapse(s))
    decreases |s|
  {
    if IsSpace(s[0]) {
      var rest := TrimStart(s);
      assert Collapse(s) == "-" + Collapse(rest);
      if rest != [] {
        assert rest[|rest| - 1] == s[|s| - 1];
        CollapseEndsWithHyphen(rest);
        HyphenEndAfter("-", Collapse(rest));
      }
    } else {
      var t := s[1..];
      assert t != [] && t[|t| - 1] == s[|s| - 1];
      CollapseEndsWithHyphen(t);
      assert Collapse(s) == [s[0]] + Collapse(t);
      HyphenEndAfter([s[0]], Collapse(t));
    }
  }

  /** A character other than white space is copied and the collapse goes on. */
  lemma CollapseCons(c: char, t: string)
    requires !IsSpace(c)
    ensures Collapse([c] + t) == [c] + Collapse(t)
  {
    var s := [c] + t;
    assert s[0] == c && s[1..] == t;
  }

  /** White-space-free text before the rest is copied unchanged. */
  lemma {:induction false} CollapseWordThen(w: string, rest: string)
    requires NoSpace(w)
    ensures Collapse(w + rest) == w + Collapse(rest)
    decreases |w|
  {
    if w == [] {
      assert w + rest == rest;
    } else {
      var c, v := w[0], w[1..];
      assert w == [c] + v && !IsSpace(c) && NoSpace(v) by {
        assert w[0] in w;
        assert forall x :: x in v ==> x in w;
      }
      CollapseWordThen(v, rest);
      CollapseConsStep(c, v, rest);
    }
  }

  /** The inductive step of `CollapseWordThen`: one more leading character. */
  lemma CollapseConsStep(c: char, v: string, rest: string)
    requires !IsSpace(c) && Collapse(v + rest) == v + Collapse(rest)
    ensures Collapse(([c] + v) + rest) == ([c] + v) + Collapse(rest)
  {
    AppendAssoc([c], v, rest);
    CollapseCons(c, v + rest);
    AppendAssoc([c], v, Collapse(rest));
  }

  /** Steps one to three work character by character, so they distribute over
      concatenation. */
  lemma StrippedAppend(x: string, y: string)
    ensures Stripped(x + y) == Stripped(x) + Stripped(y)
  {
    LowerAppend(x, y);
    WithoutAppend(Lower(x), Lower(y), '\'');
    WithoutAppend(Without(Lower(x), '\''), Without(Lower(y), '\''), ':');
  }

  /** Steps one to three keep a white-space-free name white-space free. */
  lemma StrippedNoSpace(s: string)
    requires NoSpace(s)
    ensures NoSpace(Stripped(s))
  {
    forall c | c in Lower(s)
      ensures !IsSpace(c)
    {
      var k :| 0 <= k < |s| && Lower(s)[k] == c;
      assert s[k] in s;
    }
  }

  /** Steps one to three on a name without apostrophes and colons are just
      case folding. */
  lemma StrippedPlain(w: string)
    requires '\'' !in w && ':' !in w
    ensures Stripped(w) == Lower(w)
  {
    LowerKeeps(w, '\'');
    LowerKeeps(w, ':');
  }

  /** An apostrophe or a colon contributes nothing to steps one to three. */
  lemma StrippedDrop(x: string, c: char, y: string)
    requires c == '\'' || c == ':'
    ensures Stripped(x + [c] + y) == Stripped(x + y)
  {
    StrippedAppend(x + [c], y);
    StrippedAppend(x, [c]);
    StrippedAppend(x, y);
    assert Lower([c]) == [c];
    assert Stripped([c]) == [];
    assert Stripped(x + [c]) == Stripped(x);
  }

  /** Deleting an apostrophe or a colon anywhere in the name leaves the slug as
      it is: `Tarkir: Dragonstorm` and `Tarkir Dragonstorm` share a slug. */
  lemma DeletedAnywhere(x: string, c: char, y: string)
    requires c == '\'' || c == ':'
    ensures TransformSetName(x + [c] + y) == TransformSetName(x + y)
  {
    StrippedDrop(x, c, y);
  }

  /** A white-space-free word is copied into the slug with only its case folded
      and its apostrophes and colons deleted. */
  lemma WordThen(w: string, rest: string)
    requires NoSpace(w)
    ensures TransformSetName(w + rest) == Stripped(w) + TransformSetName(rest)
  {
    StrippedAppend(w, rest);
    StrippedNoSpace(w);
    CollapseWordThen(Stripped(w), Stripped(rest));
  }

  /** A white-space run followed by a character that survives steps one to three
      becomes one hyphen. */
  lemma SpacesThen(p: string, rest: string)
    requires p != [] && AllSpace(p)
    requires rest == [] || (!IsSpace(rest[0]) && rest[0] != '\'' && rest[0] != ':')
    ensures TransformSetName(p + rest) == "-" + TransformSetName(rest)
  {
    StrippedAppend(p, rest);
    StrippedSpaces(p);
    if rest != [] {
      StrippedHead(rest);
    }
    CollapseSpacesThen(p, Stripped(rest));
  }

  /** White space passes steps one to three unchanged. */
  lemma StrippedSpaces(p: string)
    requires AllSpace(p)
    ensures Stripped(p) == p
  {
    assert NoUpper(p);
    LowerOfNoUpper(p);
  }

  /** A first character other than white space, apostrophe or colon stays first,
      case-folded. */
  lemma StrippedHead(s: string)
    requires s != [] && s[0] != '\'' && s[0] != ':'
    ensures Stripped(s) != [] && Stripped(s)[0] == LowerChar(s[0])
  {
    var c := s[0];
    assert s == [c] + s[1..];
    StrippedAppend([c], s[1..]);
    assert Lower([c]) == [LowerChar(c)];
  }

  /** Two white-space-free words separated by a white-space run are joined by
      one hyphen. */
  lemma CollapseJoin(a: string, p: string, b: string)
    requires NoSpace(a) && p != [] && AllSpace(p) && b != [] && !IsSpace(b[0])
    ensures Collapse(a + p + b) == a + "-" + Collapse(b)
  {
    AppendAssoc(a, p, b);
    CollapseWordThen(a, p + b);
    CollapseSpacesThen(p, b);
    AppendAssoc(a, "-", Collapse(b));
  }

  /** The worked examples. Each is split into facts about its literal text and
      the general laws above. */
  lemma ExampleWilds()
    ensures TransformSetName("Wilds of Eldraine") == "wilds-of-eldraine"
  {
    assert Stripped("Wilds of Eldraine") == "wilds of eldraine" by {
      WildsStripped();
    }
    assert Collapse("wilds of eldraine") == "wilds-of-eldraine" by {
      WildsCollapsed();
    }
  }

  lemma WildsCollapsed()
    ensures Collapse("wilds of eldraine") == "wilds-of-eldraine"
  {
    WildsWords();
    CollapseTwoJoins("wilds", "of", "eldraine");
  }

  /** Three words with one space between each become three words with one
      hyphen between each. */
  lemma CollapseTwoJoins(a: string, b: string, c: string)
    requires NoSpace(a) && NoSpace(b) && NoSpace(c)
    requires b != [] && !IsSpace(b[0]) && c != [] && !IsSpace(c[0])
    ensures Collapse(a + " " + (b + " " + c)) == a + "-" + (b + "-" + c)
  {
    CollapseJoin(b, " ", c);
    CollapseJoin(a, " ", b + " " + c);
  }

  lemma WildsStripped()
    ensures Stripped("Wilds of Eldraine") == "wilds of eldraine"
  {
    assert Lower("Wilds of Eldraine") == "wilds of eldraine";
    StrippedPlain("Wilds of Eldraine");
  }

  lemma WildsWords()
    ensures "wilds of eldraine" == "wilds" + " " + "of eldraine"
    ensures "of eldraine" == "of" + " " + "eldraine"
    ensures NoSpace("wilds") && NoSpace("of") && NoSpace("eldraine") && AllSpace(" ")
    ensures "wilds" + "-" + ("of" + "-" + "eldraine") == "wilds-of-eldraine"
  {
  }

  /** The colon is deleted before the white space is collapsed, so the space
      after it gives the only hyphen. */
  lemma ExampleTarkir()
    ensures TransformSetName("Tarkir: Dragonstorm") == "tarkir-dragonstorm"
  {
    TarkirStripped();
    TarkirWords();
    CollapseJoin("tarkir", " ", "dragonstorm");
  }

  lemma TarkirStripped()
    ensures Stripped("Tarkir: Dragonstorm") == "tarkir dragonstorm"
  {
    TarkirWords();
    StrippedDrop("Tarkir", ':', " Dragonstorm");
    TarkirLower();
  }

  lemma TarkirLower()
    ensures Stripped("Tarkir Dragonstorm") == "tarkir dragonstorm"
  {
    assert Lower("Tarkir Dragonstorm") == "tarkir dragonstorm";
    StrippedPlain("Tarkir Dragonstorm");
  }

  lemma TarkirWords()
    ensures "Tarkir: Dragonstorm" == "Tarkir" + [':'] + " Dragonstorm"
    ensures "Tarkir" + " Dragonstorm" == "Tarkir Dragonstorm"
    ensures "tarkir dragonstorm" == "tarkir" + " " + "dragonstorm"
    ensures NoSpace("tarkir") && NoSpace("dragonstorm") && AllSpace(" ")
    ensures "tarkir" + "-" + "dragonstorm" == "tarkir-dragonstorm"
  {
  }

  /** The apostrophe is deleted without leaving a gap. */
  lemma ExampleAssassins()
    ensures TransformSetName("Assassin's Creed") == "assassins-creed"
  {
    AssassinsStripped();
    AssassinsWords();
    CollapseJoin("assassins", " ", "creed");
  }

  lemma AssassinsStripped()
    ensures Stripped("Assassin's Creed") == "assassins creed"
  {
    AssassinsWords();
    StrippedDrop("Assassin", '\'', "s Creed");
    AssassinsLower();
  }

  lemma AssassinsLower()
    ensures Stripped("Assassins Creed") == "assassins creed"
  {
    assert Lower("Assassins Creed") == "assassins creed";
    StrippedPlain("Assassins Creed");
  }

  lemma AssassinsWords()
    ensures "Assassin's Creed" == "Assassin" + ['\''] + "s Creed"
    ensures "Assassin" + "s Creed" == "Assassins Creed"
    ensures "assassins creed" == "assassins" + " " + "creed"
    ensures NoSpace("assassins") && NoSpace("creed") && AllSpace(" ")
    ensures "assassins" + "-" + "creed" == "assassins-creed"
  {
  }

  /** A colon with white space on both sides: deleting it first leaves one run,
      so one hyphen, not two. */
  lemma ExampleSpacedColon()
    ensures TransformSetName("a : b") == "a-b"
  {
    SpacedColonStripped();
    SpacedColonWords();
    CollapseJoin("a", "  ", "b");
  }

  lemma SpacedColonWords()
    ensures "a  b" == "a" + "  " + "b"
    ensures NoSpace("a") && NoSpace("b") && AllSpace("  ")
    ensures "a" + "-" + "b" == "a-b"
  {
  }

  lemma SpacedColonStripped()
    ensures Stripped("a : b") == "a  b"
  {
    assert "a : b" == "a " + [':'] + " b";
    StrippedDrop("a ", ':', " b");
    assert "a " + " b" == "a  b";
    assert Lower("a  b") == "a  b";
    StrippedPlain("a  b");
  }
}
