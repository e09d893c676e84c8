/** The older set-name slug of utils/setNameUtils.js: lower-case, delete
    apostrophes, then turn every maximal white-space run into one hyphen.
    Unlike the backend version it keeps colons. */
module LegacySetNameSlug {
  import opened Text
  import SetNameSlug

  /** Steps one and two: lower-case, then delete every apostrophe. */
  function Stripped(setName: string): (t: string)
    ensures |t| <= |setName|
    ensures '\'' !in t && NoUpper(t)
    ensures ':' in t <==> ':' in setName
  {
    LowerKeeps(setName, ':');
    Without(Lower(setName), '\'')
  }

  function TransformSetName(setName: string): (slug: string)
    ensures '\'' !in slug
    ensures NoSpace(slug) && NoUpper(slug)
    ensures |slug| <= |setName|
  {
    SetNameSlug.Collapse(Stripped(setName))
  }

  /** The characters this version keeps apart from case: the backend's
      significant characters plus the colon. */
  predicate LegacySignificant(c: char) {
    !IsSpace(c) && c != '\'' && c != '-'
  }

  /** Every character other than white space, apostrophe and hyphen, colons
      included, reaches the slug lower-cased and in its original order. */
  lemma KeepsSignificantInOrder(setName: string)
    ensures Filter(TransformSetName(setName), LegacySignificant) == Filter(Lower(setName), LegacySignificant)
  {
    SetNameSlug.CollapseKeepsFiltered(Stripped(setName), LegacySignificant);
    FilterWithout(Lower(setName), '\'', LegacySignificant);
  }

  /** Colons are not stripped: the slug has a colon exactly when the name has one. */
  lemma ColonsKept(setName: string)
    ensures ':' in TransformSetName(setName) <==> ':' in setName
  {
    KeepsSignificantInOrder(setName);
    FilterKeeps(TransformSetName(setName), LegacySignificant, ':');
    FilterKeeps(Lower(setName), LegacySignificant, ':');
    LowerKeeps(setName, ':');
  }

  /** On a name without colons the two versions agree. */
  lemma AgreesWithoutColons(setName: string)
    requires ':' !in setName
    ensures TransformSetName(setName) == SetNameSlug.TransformSetName(setName)
  {
    LowerKeeps(setName, ':');
  }

  /** A run of `c`s with white space on both sides: deleting the run merges two
      white-space runs into one. */
  ghost predicate Bridged(t: string, c: char) {
    exists i, j :: 0 <= i && i + 1 < j < |t| && IsSpace(t[i]) && IsSpace(t[j])
                   && forall m :: i < m < j ==> t[m] == c
  }

  /** Deleting the colons from this version's slug gives the backend's slug
      whenever no colon run in the name, after case folding and apostrophe
      deletion, has white space on both sides. */
  lemma StripColonsAgrees(setName: string)
    requires !Bridged(Stripped(setName), ':')
    ensures Without(TransformSetName(setName), ':') == SetNameSlug.TransformSetName(setName)
  {
    CollapseWithoutCommute(Stripped(setName), ':');
  }

  /** Deleting a character that is neither white space nor a hyphen commutes with
      collapsing white space, unless the deletion bridges two runs. */
  lemma {:induction false} CollapseWithoutCommute(t: string, c: char)
    requires !IsSpace(c) && c != '-'
    requires !Bridged(t, c)
    ensures Without(SetNameSlug.Collapse(t), c) == SetNameSlug.Collapse(Without(t, c))
    decreases |t|
  {
    if t == [] {
    } else if !IsSpace(t[0]) {
      var h, v := t[0], t[1..];
      assert t == [h] + v;
      BridgedSuffix(t, c, 1);
      CollapseWithoutCommute(v, c);
      SetNameSlug.CollapseCons(h, v);
      WithoutAppend([h], SetNameSlug.Collapse(v), c);
      WithoutAppend([h], v, c);
      if h != c {
        SetNameSlug.CollapseCons(h, Without(v, c));
      }
    } else {
      var rest := TrimStart(t);
      var d := |t| - |rest|;
      var p := t[..d];
      assert t == p + rest;
      assert p[0] in p;
      assert p[d - 1] in p;
      BridgedSuffix(t, c, d);
      CollapseWithoutCommute(rest, c);
      WithoutAppend("-", SetNameSlug.Collapse(rest), c);
      WithoutAppend(p, rest, c);
      assert c !in p;
      if rest != [] {
        WithoutLeadSpace(rest, c);
        RunAfterSpaceBridges(t, c, d);
      }
      SetNameSlug.CollapseSpacesThen(p, Without(rest, c));
    }
  }

  /** A bridge in a suffix is a bridge in the whole text. */
  lemma BridgedSuffix(t: string, c: char, k: nat)
    requires k <= |t|
    ensures Bridged(t[k..], c) ==> Bridged(t, c)
  {
    if Bridged(t[k..], c) {
      var u := t[k..];
      var i, j :| 0 <= i && i + 1 < j < |u| && IsSpace(u[i]) && IsSpace(u[j])
                  && forall m :: i < m < j ==> u[m] == c;
      assert forall m :: i + k < m < j + k ==> t[m] == u[m - k];
      assert IsSpace(t[i + k]) && IsSpace(t[j + k]);
    }
  }

  /** White space, then a run of `c`s, then white space again is a bridge. */
  lemma RunAfterSpaceBridges(t: string, c: char, d: nat)
    requires 1 <= d <= |t| && IsSpace(t[d - 1])
    ensures (exists j :: 0 < j < |t[d..]| && IsSpace(t[d..][j]) && forall m :: 0 <= m < j ==> t[d..][m] == c)
            ==> Bridged(t, c)
  {
    var rest := t[d..];
    if exists j :: 0 < j < |rest| && IsSpace(rest[j]) && forall m :: 0 <= m < j ==> rest[m] == c {
      var j :| 0 < j < |rest| && IsSpace(rest[j]) && forall m :: 0 <= m < j ==> rest[m] == c;
      assert forall m :: d - 1 < m < d + j ==> t[m] == rest[m - d];
      assert IsSpace(t[d + j]);
    }
  }

  /** Deleting `c` from text that starts with a character other than white space leaves
      it starting with white space only when a run of `c`s is followed by white
      space. */
  lemma {:induction false} WithoutLeadSpace(s: string, c: char)
    requires s != [] && !IsSpace(s[0]) && !IsSpace(c)
    ensures Without(s, c) == [] || !IsSpace(Without(s, c)[0])
         || exists j :: 0 < j < |s| && IsSpace(s[j]) && forall m :: 0 <= m < j ==> s[m] == c
    decreases |s|
  {
    if s[0] == c && |s| > 1 {
      if IsSpace(s[1]) {
        assert forall m :: 0 <= m < 1 ==> s[m] == c;
      } else {
        WithoutLeadSpace(s[1..], c);
        if exists j :: 0 < j < |s[1..]| && IsSpace(s[1..][j]) && forall m :: 0 <= m < j ==> s[1..][m] == c {
          var j :| 0 < j < |s[1..]| && IsSpace(s[1..][j]) && forall m :: 0 <= m < j ==> s[1..][m] == c;
          assert forall m :: 0 <= m < j + 1 ==> s[m] == c by {
            forall m | 0 <= m < j + 1
              ensures s[m] == c
            {
              if m > 0 {
                assert s[m] == s[1..][m - 1];
              }
            }
          }
          assert IsSpace(s[j + 1]);
        }
      }
    }
  }

  /** Steps one and two on a name without apostrophes are just case folding. */
  lemma StrippedPlain(w: string)
    requires '\'' !in w
    ensures Stripped(w) == Lower(w)
  {
    LowerKeeps(w, '\'');
  }

  /** The colon survives and the space after it becomes a hyphen. */
  lemma ExampleTarkir()
    ensures TransformSetName("Tarkir: Dragonstorm") == "tarkir:-dragonstorm"
  {
    TarkirStripped();
    TarkirWords();
    SetNameSlug.CollapseJoin("tarkir:", " ", "dragonstorm");
  }

  lemma TarkirStripped()
    ensures Stripped("Tarkir: Dragonstorm") == "tarkir: dragonstorm"
  {
    assert Lower("Tarkir: Dragonstorm") == "tarkir: dragonstorm";
    StrippedPlain("Tarkir: Dragonstorm");
  }

  lemma TarkirWords()
    ensures "tarkir: dragonstorm" == "tarkir:" + " " + "dragonstorm"
    ensures NoSpace("tarkir:") && NoSpace("dragonstorm") && AllSpace(" ")
    ensures "tarkir:" + "-" + "dragonstorm" == "tarkir:-dragonstorm"
  {
  }

  /** A colon with white space on both sides is the case where deleting colons
      afterwards does not recover the backend's slug: two hyphens instead of one. */
  lemma ExampleSpacedColon()
    ensures TransformSetName("a : b") == "a-:-b"
    ensures Without(TransformSetName("a : b"), ':') == "a--b"
    ensures SetNameSlug.TransformSetName("a : b") == "a-b"
  {
    SpacedColonStripped();
    SpacedColonWords();
    SetNameSlug.CollapseJoin(":", " ", "b");
    SetNameSlug.CollapseJoin("a", " ", ": b");
    SpacedColonHyphens();
    SetNameSlug.ExampleSpacedColon();
  }

  lemma SpacedColonStripped()
    ensures Stripped("a : b") == "a : b"
  {
    assert Lower("a : b") == "a : b";
    StrippedPlain("a : b");
  }

  lemma SpacedColonWords()
    ensures "a : b" == "a" + " " + ": b"
    ensures ": b" == ":" + " " + "b"
    ensures NoSpace("a") && NoSpace(":") && NoSpace("b") && AllSpace(" ")
    ensures "a" + "-" + (":" + "-" + "b") == "a-:-b"
  {
  }

  lemma SpacedColonHyphens()
    ensures Without("a-:-b", ':') == "a--b"
  {
    assert "a-:-b" == "a-" + [':'] + "-b";
    WithoutAppend("a-" + [':'], "-b", ':');
    WithoutAppend("a-", [':'], ':');
  }
}
