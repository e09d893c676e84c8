/** The collector-booster product-id extractor shared by the two scrapers: the
    page is already parsed into its anchors, in document order; an anchor is
    kept when the `a[href*="/product/"]` selector picks it, its lower-cased text
    names a collector booster display and not a case, and its href matches
    `/\/product\/(\d+)\//`, whose first group is the id. */
module ProductLinks {
  import opened Options
  import opened Text

  /** An `<a>` element: its `href` attribute, when present, and its text. */
  datatype Anchor = Anchor(href: Option<string>, text: string)

  const ProductPath: string := "/product/"
  const DisplayPhrase: string := "collector booster display"
  const CaseWord: string := "case"

  /** `a[href*="/product/"]`: the anchor has an href containing the product path. */
  predicate Selected(a: Anchor) {
    a.href.Some? && Contains(a.href.value, ProductPath)
  }

  /** The text filter, applied to the lower-cased anchor text. */
  predicate TextQualifies(text: string) {
    Contains(Lower(text), DisplayPhrase) && !Contains(Lower(text), CaseWord)
  }

  predicate AllDigits(s: string) {
    forall k :: 0 <= k < |s| ==> IsDigit(s[k])
  }

  /** What the capture group `(\d+)` can hold. */
  predicate IsProductId(s: string) {
    s != [] && AllDigits(s)
  }

  /** The longest run of digits in `h` starting at index `j`. */
  function DigitRun(h: string, j: nat): (d: string)
    requires j <= |h|
    ensures j + |d| <= |h| && d == h[j..j + |d|]
    ensures AllDigits(d)
    ensures j + |d| == |h| || !IsDigit(h[j + |d|])
    decreases |h| - j
  {
    if j < |h| && IsDigit(h[j]) then [h[j]] + DigitRun(h, j + 1) else []
  }

  /** A digit run that cannot be extended is the longest one. */
  lemma DigitRunUnique(h: string, j: nat, d: string)
    requires j + |d| <= |h| && d == h[j..j + |d|] && AllDigits(d)
    requires j + |d| == |h| || !IsDigit(h[j + |d|])
    ensures DigitRun(h, j) == d
  {
    var r := DigitRun(h, j);
    assert forall k :: 0 <= k < |d| ==> h[j + k] == d[k];
    assert forall k :: 0 <= k < |r| ==> h[j + k] == r[k];
  }

  /** The pattern matches at index `i` of `h` with `d` as its capture group. */
  ghost predicate IdAt(h: string, i: int, d: string) {
    IsProductId(d) && OccursAt(ProductPath + d + "/", h, i)
  }

  /** The regular expression tried at one start index. The greedy `\d+` takes the
      whole digit run, and a shorter run is followed by a digit rather than the
      closing `/`, so backtracking never finds another match. */
  function MatchAt(h: string, i: nat): (m: Option<string>)
    requires i <= |h|
  {
    if i + |ProductPath| <= |h| && h[i..i + |ProductPath|] == ProductPath then
      var j := i + |ProductPath|;
      var d := DigitRun(h, j);
      if d != [] && j + |d| < |h| && h[j + |d|] == '/' then Some(d) else None
    else
      None
  }

  /** At one index the pattern matches with group `d` exactly when `MatchAt`
      returns `d`; in particular there is at most one such `d`. */
  lemma MatchAtIff(h: string, i: nat, d: string)
    requires i <= |h|
    ensures MatchAt(h, i) == Some(d) <==> IdAt(h, i, d)
  {
    if MatchAt(h, i) == Some(d) {
      MatchGivesIdAt(h, i, d);
    }
    if IdAt(h, i, d) {
      IdAtGivesMatch(h, i, d);
    }
  }

  lemma MatchGivesIdAt(h: string, i: nat, d: string)
    requires i <= |h| && MatchAt(h, i) == Some(d)
    ensures IdAt(h, i, d)
  {
    var j := i + |ProductPath|;
    assert h[i..j] == ProductPath && d == DigitRun(h, j) && j + |d| < |h| && h[j + |d|] == '/';
    var e := j + |d| + 1;
    assert h[i..e] == h[i..j] + h[j..j + |d|] + h[j + |d|..e];
    assert h[j + |d|..e] == "/";
  }

  lemma IdAtGivesMatch(h: string, i: nat, d: string)
    requires i <= |h| && IdAt(h, i, d)
    ensures MatchAt(h, i) == Some(d)
  {
    var n := |ProductPath|;
    var w := ProductPath + d + "/";
    assert h[i..i + n] == w[..n];
    forall m | 0 <= m < |d|
      ensures h[i + n + m] == d[m]
    {
      assert h[i + n + m] == h[i..i + |w|][n + m] == w[n + m];
    }
    assert h[i + n..i + n + |d|] == d;
    assert h[i + n + |d|] == h[i..i + |w|][n + |d|] == w[n + |d|];
    DigitRunUnique(h, i + n, d);
  }

  /** The leftmost match at or after index `i`. */
  function FirstMatchFrom(h: string, i: nat): (m: Option<string>)
    requires i <= |h|
    ensures m.Some? ==> IsProductId(m.value)
    decreases |h| - i
  {
    if i == |h| then None
    else if MatchAt(h, i).Some? then MatchAt(h, i)
    else FirstMatchFrom(h, i + 1)
  }

  /** `href.match(/\/product\/(\d+)\//)?.[1]`: the group of the leftmost match. */
  function ProductIdOf(href: string): (id: Option<string>)
    ensures id.Some? ==> IsProductId(id.value)
  {
    FirstMatchFrom(href, 0)
  }

  lemma {:induction false} FirstMatchFromIsLeftmost(h: string, i: nat, d: string)
    requires i <= |h|
    ensures FirstMatchFrom(h, i) == Some(d)
        <==> exists k :: i <= k && IdAt(h, k, d) && forall j, e :: i <= j < k ==> !IdAt(h, j, e)
    decreases |h| - i
  {
    if i == |h| {
    } else {
      MatchAtIff(h, i, d);
      FirstMatchFromIsLeftmost(h, i + 1, d);
      if MatchAt(h, i).Some? {
        var m := MatchAt(h, i).value;
        MatchAtIff(h, i, m);
        assert IdAt(h, i, m);
      } else {
        forall e
          ensures !IdAt(h, i, e)
        {
          MatchAtIff(h, i, e);
        }
        if exists k :: i + 1 <= k && IdAt(h, k, d) && forall j, e :: i + 1 <= j < k ==> !IdAt(h, j, e) {
          var k :| i + 1 <= k && IdAt(h, k, d) && forall j, e :: i + 1 <= j < k ==> !IdAt(h, j, e);
          assert forall j, e :: i <= j < k ==> !IdAt(h, j, e);
        }
      }
    }
  }

  /** The extracted id is the capture group of the leftmost match; no match at
      all gives no id. */
  lemma ProductIdIsLeftmost(href: string, d: string)
    ensures ProductIdOf(href) == Some(d)
        <==> exists k :: IdAt(href, k, d) && forall j, e :: 0 <= j < k ==> !IdAt(href, j, e)
    ensures ProductIdOf(href) == None <==> forall k, e :: !IdAt(href, k, e)
  {
    FirstMatchFromIsLeftmost(href, 0, d);
    forall k, e | IdAt(href, k, e)
      ensures ProductIdOf(href).Some?
    {
      MatchGivesId(href, k, e);
    }
    if ProductIdOf(href).Some? {
      FirstMatchFromIsLeftmost(href, 0, ProductIdOf(href).value);
    }
  }

  /** A match anywhere means an id is extracted. */
  lemma MatchGivesId(h: string, k: int, d: string)
    requires IdAt(h, k, d)
    ensures ProductIdOf(h).Some?
  {
    LeftmostExists(h, k, d);
    var k', d' :| IdAt(h, k', d') && forall j, e :: 0 <= j < k' ==> !IdAt(h, j, e);
    FirstMatchFromIsLeftmost(h, 0, d');
  }

  /** When the pattern matches somewhere, there is a leftmost match. */
  lemma {:induction false} LeftmostExists(h: string, k: int, d: string)
    requires IdAt(h, k, d)
    ensures exists k', d' :: IdAt(h, k', d') && forall j, e :: 0 <= j < k' ==> !IdAt(h, j, e)
    decreases k
  {
    if exists j, e :: 0 <= j < k && IdAt(h, j, e) {
      var j, e :| 0 <= j < k && IdAt(h, j, e);
      LeftmostExists(h, j, e);
    }
  }

  /** A match contains the product path, so the selector never drops an anchor
      the regular expression would extract from. */
  lemma SelectorImpliedByMatch(href: string)
    requires ProductIdOf(href).Some?
    ensures Contains(href, ProductPath)
  {
    var d := ProductIdOf(href).value;
    ProductIdIsLeftmost(href, d);
    var k :| IdAt(href, k, d) && forall j, e :: 0 <= j < k ==> !IdAt(href, j, e);
    assert OccursAt(ProductPath + d + "/", href, k);
    ContainsIffOccurs(href, ProductPath + d + "/");
    ContainsPiece(href, ProductPath + d + "/", 0, ProductPath);
  }

  /** An href that starts with the product path, an id and a slash yields that id. */
  lemma ProductIdOfLeading(d: string, tail: string)
    requires IsProductId(d)
    ensures ProductIdOf(ProductPath + d + "/" + tail) == Some(d)
  {
    var h := ProductPath + d + "/" + tail;
    var w := ProductPath + d + "/";
    assert h[0..|w|] == w;
    assert IdAt(h, 0, d);
    MatchAtIff(h, 0, d);
  }

  /** The id one anchor contributes, if any (the body of the `.each` callback). */
  function AnchorId(a: Anchor): (id: Option<string>)
    ensures id.Some? ==> IsProductId(id.value)
    ensures id.Some? ==> Selected(a) && TextQualifies(a.text)
  {
    if Selected(a) && TextQualifies(a.text) then ProductIdOf(a.href.value) else None
  }

  /** An anchor contributes an id exactly when it has an href, its text qualifies
      and the pattern matches its href; the id is the leftmost group. */
  lemma AnchorIdIff(a: Anchor, d: string)
    ensures AnchorId(a) == Some(d)
        <==> a.href.Some? && TextQualifies(a.text)
             && exists k :: IdAt(a.href.value, k, d) && forall j, e :: 0 <= j < k ==> !IdAt(a.href.value, j, e)
  {
    if a.href.Some? {
      ProductIdIsLeftmost(a.href.value, d);
      if ProductIdOf(a.href.value).Some? {
        SelectorImpliedByMatch(a.href.value);
      }
    }
  }

  /** Every qualifying id, in document order. */
  function QualifyingIds(anchors: seq<Anchor>): (ids: seq<string>)
    ensures |ids| <= |anchors|
    ensures forall k :: 0 <= k < |ids| ==> IsProductId(ids[k])
  {
    if anchors == [] then []
    else
      var front := QualifyingIds(anchors[..|anchors| - 1]);
      match AnchorId(anchors[|anchors| - 1])
      case Some(d) => front + [d]
      case None => front
  }

  /** The `.each` loop: walk the anchors in order and push each id found. */
  method CollectIds(anchors: seq<Anchor>) returns (ids: seq<string>)
    ensures ids == QualifyingIds(anchors)
  {
    ids := [];
    var i := 0;
    while i < |anchors|
      invariant 0 <= i <= |anchors|
      invariant ids == QualifyingIds(anchors[..i])
    {
      assert anchors[..i + 1][..i] == anchors[..i];
      var id := AnchorId(anchors[i]);
      if id.Some? {
        ids := ids + [id.value];
      }
      i := i + 1;
    }
    assert anchors[..i] == anchors;
  }

  /** The collected ids of consecutive stretches of the page are concatenated. */
  lemma {:induction false} QualifyingIdsAppend(a: seq<Anchor>, b: seq<Anchor>)
    ensures QualifyingIds(a + b) == QualifyingIds(a) + QualifyingIds(b)
    decreases |b|
  {
    if b == [] {
      assert a + b == a;
    } else {
      var b' := b[..|b| - 1];
      assert (a + b)[..|a + b| - 1] == a + b';
      assert (a + b)[|a + b| - 1] == b[|b| - 1];
      QualifyingIdsAppend(a, b');
    }
  }

  /** One anchor contributes exactly its own id. */
  lemma QualifyingIdsSingle(a: Anchor)
    ensures QualifyingIds([a]) == (if AnchorId(a).Some? then [AnchorId(a).value] else [])
  {
    assert [a][..0] == [];
  }

  /** A collected id comes from some anchor. */
  lemma {:induction false} QualifyingIdSource(anchors: seq<Anchor>, d: string) returns (k: nat)
    requires d in QualifyingIds(anchors)
    ensures k < |anchors| && AnchorId(anchors[k]) == Some(d)
    decreases |anchors|
  {
    var n := |anchors| - 1;
    var front := anchors[..n];
    var last := AnchorId(anchors[n]);
    assert QualifyingIds(anchors) == QualifyingIds(front) + (if last.Some? then [last.value] else []);
    if d in QualifyingIds(front) {
      k := QualifyingIdSource(front, d);
      assert front[k] == anchors[k];
    } else {
      k := n;
    }
  }

  /** Every anchor's id is collected. */
  lemma QualifyingIdFromAnchor(anchors: seq<Anchor>, k: nat, d: string)
    requires k < |anchors| && AnchorId(anchors[k]) == Some(d)
    ensures d in QualifyingIds(anchors)
  {
    var a, x, b := anchors[..k], anchors[k], anchors[k + 1..];
    QualifyingIdsSingle(x);
    assert QualifyingIds([x]) == [d];
    QualifyingIdsAppend(a, [x]);
    var q := QualifyingIds(a + [x]);
    assert q == QualifyingIds(a) + [d];
    assert d == q[|q| - 1];
    QualifyingIdsAppend(a + [x], b);
    assert (q + QualifyingIds(b))[|q| - 1] == d;
    SplitAt(anchors, k);
  }

  lemma SplitAt<T>(s: seq<T>, k: nat)
    requires k < |s|
    ensures s == (s[..k] + [s[k]]) + s[k + 1..]
  {
  }

  /** `d` is collected exactly when some anchor contributes it. */
  lemma QualifyingIdsMember(anchors: seq<Anchor>, d: string)
    ensures d in QualifyingIds(anchors) <==> exists k :: 0 <= k < |anchors| && AnchorId(anchors[k]) == Some(d)
  {
    if d in QualifyingIds(anchors) {
      var k := QualifyingIdSource(anchors, d);
    }
    if exists k :: 0 <= k < |anchors| && AnchorId(anchors[k]) == Some(d) {
      var k :| 0 <= k < |anchors| && AnchorId(anchors[k]) == Some(d);
      QualifyingIdFromAnchor(anchors, k, d);
    }
  }

  /** The first id in document order: the first anchor that contributes one. */
  function FirstId(anchors: seq<Anchor>): (id: Option<string>)
    ensures id.Some? ==> IsProductId(id.value)
  {
    if anchors == [] then None
    else if AnchorId(anchors[0]).Some? then AnchorId(anchors[0])
    else FirstId(anchors[1..])
  }

  /** The first id comes from the earliest contributing anchor, and there is none
      exactly when no anchor contributes. */
  lemma FirstIdIsEarliest(anchors: seq<Anchor>)
    ensures FirstId(anchors).Some?
        <==> exists k :: 0 <= k < |anchors| && AnchorId(anchors[k]).Some?
    ensures FirstId(anchors).Some? ==>
        exists k :: 0 <= k < |anchors| && AnchorId(anchors[k]) == FirstId(anchors)
                    && forall j :: 0 <= j < k ==> AnchorId(anchors[j]).None?
  {
    if FirstId(anchors).Some? {
      var k := FirstIdWitness(anchors);
    }
    if exists k :: 0 <= k < |anchors| && AnchorId(anchors[k]).Some? {
      var k :| 0 <= k < |anchors| && AnchorId(anchors[k]).Some?;
      FirstIdFound(anchors, k);
    }
  }

  /** The anchor the first id comes from: it contributes that id and no anchor
      before it contributes any. */
  lemma {:induction false} FirstIdWitness(anchors: seq<Anchor>) returns (k: nat)
    requires FirstId(anchors).Some?
    ensures k < |anchors| && AnchorId(anchors[k]) == FirstId(anchors)
    ensures forall j :: 0 <= j < k ==> AnchorId(anchors[j]).None?
    decreases |anchors|
  {
    if AnchorId(anchors[0]).Some? {
      k := 0;
    } else {
      var t := anchors[1..];
      var k' := FirstIdWitness(t);
      k := k' + 1;
      assert anchors[k] == t[k'];
      forall j | 0 <= j < k
        ensures AnchorId(anchors[j]).None?
      {
        if j > 0 {
          assert anchors[j] == t[j - 1];
        }
      }
    }
  }

  /** An anchor that contributes an id means the search finds one. */
  lemma {:induction false} FirstIdFound(anchors: seq<Anchor>, k: nat)
    requires k < |anchors| && AnchorId(anchors[k]).Some?
    ensures FirstId(anchors).Some?
    decreases |anchors|
  {
    if AnchorId(anchors[0]).None? {
      assert anchors[k] == anchors[1..][k - 1];
      FirstIdFound(anchors[1..], k - 1);
    }
  }

  /** The first id is the head of the full list of ids. */
  lemma {:induction false} FirstIdIsHead(anchors: seq<Anchor>)
    ensures FirstId(anchors) == (if QualifyingIds(anchors) == [] then None else Some(QualifyingIds(anchors)[0]))
    decreases |anchors|
  {
    if anchors != [] {
      assert anchors == [anchors[0]] + anchors[1..];
      QualifyingIdsAppend([anchors[0]], anchors[1..]);
      QualifyingIdsSingle(anchors[0]);
      FirstIdIsHead(anchors[1..]);
    }
  }

  /** Any text mentioning a case, a display case or a showcase is rejected. */
  lemma CaseRejected(text: string)
    requires Contains(Lower(text), CaseWord)
    ensures !TextQualifies(text)
  {
  }

  lemma ShowcaseRejected(text: string)
    requires Contains(Lower(text), "showcase")
    ensures !TextQualifies(text)
  {
    ContainsPiece(Lower(text), "showcase", 4, CaseWord);
  }

  lemma DisplayCaseRejected(text: string)
    requires Contains(Lower(text), "collector booster display case")
    ensures !TextQualifies(text)
  {
    ContainsPiece(Lower(text), "collector booster display case", 26, CaseWord);
  }

  /** An anchor without an href contributes nothing. */
  lemma NoHrefSkipped(text: string)
    ensures AnchorId(Anchor(None, text)) == None
  {
  }

  /** The pattern needs its closing slash. */
  lemma IdAtClosingSlash(h: string, k: int, e: string)
    requires IdAt(h, k, e)
    ensures k + |ProductPath| + |e| < |h| && h[k + |ProductPath| + |e|] == '/'
  {
    var w := ProductPath + e + "/";
    assert h[k + |ProductPath| + |e|] == h[k..k + |w|][|ProductPath| + |e|];
  }

  /** An href whose digits run to its end, such as `/product/123`, yields no id. */
  lemma NoClosingSlash(d: string)
    requires AllDigits(d)
    ensures ProductIdOf(ProductPath + d) == None
  {
    var h := ProductPath + d;
    assert forall p :: |ProductPath| <= p < |h| ==> h[p] == d[p - |ProductPath|];
    forall k, e
      ensures !IdAt(h, k, e)
    {
      if IdAt(h, k, e) {
        IdAtClosingSlash(h, k, e);
      }
    }
    ProductIdIsLeftmost(h, "");
  }

  lemma ExampleNoClosingSlash()
    ensures ProductIdOf("/product/123") == None
  {
    assert "/product/123" == ProductPath + "123";
    NoClosingSlash("123");
  }

  /** The display phrase itself does not mention a case: its only `a` comes too
      late to be the second letter of `case`. */
  lemma DisplayPhraseHasNoCase()
    ensures !Contains(DisplayPhrase, CaseWord)
  {
    assert DisplayPhrase[..23] == "collector booster displ";
    assert 'a' !in DisplayPhrase[..23];
    forall i
      ensures !OccursAt(CaseWord, DisplayPhrase, i)
    {
      if 0 <= i && i + |CaseWord| <= |DisplayPhrase| {
        assert DisplayPhrase[i..i + |CaseWord|][1] == DisplayPhrase[..23][i + 1];
      }
    }
    ContainsIffOccurs(DisplayPhrase, CaseWord);
  }

  /** Text that is exactly the phrase, in any case, qualifies. */
  lemma PhraseQualifies(text: string)
    requires Lower(text) == DisplayPhrase
    ensures TextQualifies(text)
  {
    DisplayPhraseHasNoCase();
    ContainsSelf(DisplayPhrase);
  }

  /** A qualifying anchor whose href starts with the product path, an id and a
      slash contributes that id. */
  lemma LeadingAnchorId(d: string, tail: string, text: string)
    requires IsProductId(d) && TextQualifies(text)
    ensures AnchorId(Anchor(Some(ProductPath + d + "/" + tail), text)) == Some(d)
  {
    ProductIdOfLeading(d, tail);
    SelectorImpliedByMatch(ProductPath + d + "/" + tail);
  }

  /** A display followed by a display case: only the display's id is collected,
      and it is the one returned first. */
  lemma ExampleDisplayThenCase(tail1: string, tail2: string)
    ensures var page := [Anchor(Some(ProductPath + "619672" + "/" + tail1), "Collector Booster Display"),
                         Anchor(Some(ProductPath + "619999" + "/" + tail2), "Collector Booster Display Case")];
            QualifyingIds(page) == ["619672"] && FirstId(page) == Some("619672")
  {
    var a1 := Anchor(Some(ProductPath + "619672" + "/" + tail1), "Collector Booster Display");
    var a2 := Anchor(Some(ProductPath + "619999" + "/" + tail2), "Collector Booster Display Case");
    DisplayAnchor(tail1);
    DisplayCaseAnchor(tail2);
    QualifyingIdsAppend([a1], [a2]);
    QualifyingIdsSingle(a1);
    QualifyingIdsSingle(a2);
    assert [a1] + [a2] == [a1, a2];
    FirstIdIsHead([a1, a2]);
  }

  lemma DisplayAnchor(tail: string)
    ensures AnchorId(Anchor(Some(ProductPath + "619672" + "/" + tail), "Collector Booster Display")) == Some("619672")
  {
    DisplayQualifies();
    DisplayIdIsId();
    LeadingAnchorId("619672", tail, "Collector Booster Display");
  }

  lemma DisplayIdIsId()
    ensures IsProductId("619672")
  {
    var s := "619672";
    forall k | 0 <= k < |s|
      ensures IsDigit(s[k])
    {
      assert s[k] in s;
    }
  }

  lemma DisplayQualifies()
    ensures TextQualifies("Collector Booster Display")
  {
    DisplayLower();
    PhraseQualifies("Collector Booster Display");
  }

  lemma DisplayLower()
    ensures Lower("Collector Booster Display") == DisplayPhrase
  {
  }

  lemma DisplayCaseAnchor(tail: string)
    ensures AnchorId(Anchor(Some(ProductPath + "619999" + "/" + tail), "Collector Booster Display Case")) == None
  {
    DisplayCaseText();
    DisplayCaseRejected("Collector Booster Display Case");
  }

  lemma DisplayCaseText()
    ensures Contains(Lower("Collector Booster Display Case"), "collector booster display case")
  {
    DisplayCaseLower();
    ContainsSelf("collector booster display case");
  }

  lemma DisplayCaseLower()
    ensures Lower("Collector Booster Display Case") == "collector booster display case"
  {
  }
}
