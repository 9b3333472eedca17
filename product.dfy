/**
 * Building the product records of the Gardena catalogue (collectProductData):
 * one record per scraped product card, then a translation pass that fills in
 * the Russian name of every record.
 */
module Product {
  import opened JsString

  datatype Option<T> = None | Some(value: T)

  /** What the selectors pick out of one `.product` element: the `href` of
      its anchor, the `src` of its image, the text of its `h4` heading and the
      text of its `.article-number` element; each may be missing. */
  datatype Card = Card(
    href: Option<string>,
    imageSrc: Option<string>,
    heading: Option<string>,
    articleText: Option<string>)

  /** The ProductData record. */
  datatype ProductData = ProductData(
    link: string,
    image: string,
    nameEn: string,
    nameRu: string,
    articleNumber: string)

  const BaseUrl: string := "https://www.gardena.com"
  const ArticleLabel: string := "Article No. "

  /** The product link: the site's base URL followed by the href, if any. */
  function Link(href: Option<string>): (r: string)
    ensures BaseUrl <= r
    ensures r[|BaseUrl|..] == (if href.Some? then href.value else "")
    ensures href.None? ==> r == BaseUrl
  {
    BaseUrl + (if href.Some? then href.value else "")
  }

  /** The image URL: a protocol-relative `//...` source gets the `https:`
      scheme; any other source, present or empty, is kept as it is. */
  function NormaliseImage(src: Option<string>): (r: string)
    ensures src.None? ==> r == ""
    ensures src.Some? && "//" <= src.value ==> r == "https:" + src.value
    ensures src.Some? && !("//" <= src.value) ==> r == src.value
  {
    var s := if src.Some? then src.value else "";
    if "//" <= s then "https:" + s else s
  }

  /** The article number: the trimmed text with the first occurrence of the
      label "Article No. " removed, wherever it stands (see the lemmas
      ArticleNumberUnlabelled and ArticleNumberLabelledAt). */
  function ArticleNumber(text: Option<string>): string
  {
    var t := Trim(if text.Some? then text.value else "");
    ReplaceFirst(t, ArticleLabel, "")
  }

  /** The record built from one card, with the Russian name still empty. */
  function ParseCard(c: Card): (r: ProductData)
    ensures r.nameRu == ""
    ensures BaseUrl <= r.link
  {
    ProductData(
      Link(c.href),
      NormaliseImage(c.imageSrc),
      if c.heading.Some? then c.heading.value else "",
      "",
      ArticleNumber(c.articleText))
  }

  /** `$('.product').map(...).get()`: one record per card, in card order. */
  function ParseCards(cards: seq<Card>): (r: seq<ProductData>)
    ensures |r| == |cards|
    ensures forall i :: 0 <= i < |cards| ==> r[i] == ParseCard(cards[i])
  {
    if cards == [] then [] else [ParseCard(cards[0])] + ParseCards(cards[1..])
  }

  /** A record with its Russian name filled in (`{...product, nameRu}`). */
  function WithNameRu(p: ProductData, nameRu: string): (r: ProductData)
    ensures r.nameRu == nameRu
    ensures r.link == p.link && r.image == p.image
    ensures r.nameEn == p.nameEn && r.articleNumber == p.articleNumber
  {
    p.(nameRu := nameRu)
  }

  /** All translations succeed. */
  predicate AllTranslate(products: seq<ProductData>, translate: string -> Option<string>) {
    forall i :: 0 <= i < |products| ==> translate(products[i].nameEn).Some?
  }

  /** `Promise.all(products.map(...))` over the translation call, which is a
      parameter here: `None` stands for a rejected promise, and one rejection
      rejects the whole batch. On success the records keep their order and
      every field but `nameRu`, which is the translation of `nameEn`. */
  function TranslateAll(products: seq<ProductData>, translate: string -> Option<string>)
    : (r: Option<seq<ProductData>>)
    ensures r.Some? <==> AllTranslate(products, translate)
    ensures r.Some? ==> |r.value| == |products|
    ensures r.Some? ==> forall i :: 0 <= i < |products| ==>
              r.value[i] == WithNameRu(products[i], translate(products[i].nameEn).value)
  {
    if products == [] then Some([])
    else
      match translate(products[0].nameEn)
      case None => None
      case Some(ru) =>
        match TranslateAll(products[1..], translate)
        case None =>
          assert !AllTranslate(products, translate) by {
            var j :| 0 <= j < |products[1..]| && translate(products[1..][j].nameEn).None?;
            assert products[j + 1] == products[1..][j];
          }
          None
        case Some(rest) =>
          assert AllTranslate(products, translate) by {
            forall i | 0 <= i < |products| ensures translate(products[i].nameEn).Some? {
              if i > 0 { assert products[i] == products[1..][i - 1]; }
            }
          }
          Some([WithNameRu(products[0], ru)] + rest)
  }

  /** collectProductData, after the page content has been parsed into cards. */
  function CollectProductData(cards: seq<Card>, translate: string -> Option<string>)
    : (r: Option<seq<ProductData>>)
  {
    TranslateAll(ParseCards(cards), translate)
  }

  /** End to end: the records come back one per card, in card order, each
      built from its own card and carrying the translation of its heading;
      the batch fails exactly when some heading fails to translate. */
  lemma CollectProductDataSpec(cards: seq<Card>, translate: string -> Option<string>)
    ensures var r := CollectProductData(cards, translate);
      && (r.Some? <==> forall i :: 0 <= i < |cards| ==> translate(ParseCard(cards[i]).nameEn).Some?)
      && (r.Some? ==> |r.value| == |cards|)
      && (r.Some? ==> forall i :: 0 <= i < |cards| ==>
            var c := cards[i];
            var nameEn := if c.heading.Some? then c.heading.value else "";
            r.value[i] == ProductData(Link(c.href), NormaliseImage(c.imageSrc), nameEn,
                                      translate(nameEn).value, ArticleNumber(c.articleText)))
  {
    var parsed := ParseCards(cards);
    assert AllTranslate(parsed, translate) <==>
           forall i :: 0 <= i < |cards| ==> translate(ParseCard(cards[i]).nameEn).Some?;
  }

  /** Records taken from a `//` source always carry an https URL. */
  lemma ProtocolRelativeBecomesHttps(src: string)
    requires "//" <= src
    ensures "https://" <= NormaliseImage(Some(src))
    ensures NormaliseImage(Some(src))[|"https:"|..] == src
  {
    assert NormaliseImage(Some(src)) == "https:" + src;
    assert ("https:" + src)[..8] == "https:" + src[..2];
  }

  /** With trimmable padding around the label and an article number that
      does not end in whitespace, the number comes out exactly. */
  lemma {:induction false} ArticleNumberOfLabelled(pre: string, number: string, post: string)
    requires AllTrimmable(pre) && AllTrimmable(post)
    requires number != [] && !IsTrimmable(number[|number| - 1])
    ensures ArticleNumber(Some(pre + ArticleLabel + number + post)) == number
  {
    var mid := ArticleLabel + number;
    assert pre + ArticleLabel + number + post == pre + mid + post;
    assert mid[|mid| - 1] == number[|number| - 1];
    TrimOfPadded(pre, mid, post);
    assert OccursAt(mid, ArticleLabel, 0) by {
      assert mid[0..|ArticleLabel|] == ArticleLabel;
    }
    ArticleNumberLabelledAt(pre + ArticleLabel + number + post, 0);
    assert mid[|ArticleLabel|..] == number;
  }

  /** Text whose trimmed form holds no label is only trimmed. */
  lemma ArticleNumberUnlabelled(text: string)
    requires forall j :: 0 <= j <= |Trim(text)| ==> !OccursAt(Trim(text), ArticleLabel, j)
    ensures ArticleNumber(Some(text)) == Trim(text)
  {
    ReplaceFirstAbsent(Trim(text), ArticleLabel, "");
  }

  /** Where the trimmed text first holds the label, at `i`, exactly those
      twelve characters are cut out and the rest is kept in order. */
  lemma ArticleNumberLabelledAt(text: string, i: int)
    requires OccursAt(Trim(text), ArticleLabel, i)
    requires forall j :: 0 <= j < i ==> !OccursAt(Trim(text), ArticleLabel, j)
    ensures ArticleNumber(Some(text)) == Trim(text)[..i] + Trim(text)[i + |ArticleLabel|..]
  {
    var t := Trim(text);
    ReplaceFirstAt(t, ArticleLabel, "", i);
    assert t[..i] + "" + t[i + |ArticleLabel|..] == t[..i] + t[i + |ArticleLabel|..];
  }

  /** A missing article-number element gives an empty article number. */
  lemma ArticleNumberMissing()
    ensures ArticleNumber(None) == ""
  {
    assert Trim("") == "";
    assert OccursAt("", ArticleLabel, 0) == false;
    ReplaceFirstAbsent("", ArticleLabel, "");
  }

  /** The translation example: two records translated one by one keep their
      correspondence with the input. */
  lemma TranslateKeepsCorrespondence(a: ProductData, b: ProductData, translate: string -> Option<string>)
    requires a.nameEn == "Rake" && b.nameEn == "Hoe"
    requires translate("Rake").Some? && translate("Hoe").Some?
    ensures TranslateAll([a, b], translate)
            == Some([a.(nameRu := translate("Rake").value), b.(nameRu := translate("Hoe").value)])
  {
    var r := TranslateAll([a, b], translate);
    assert AllTranslate([a, b], translate);
    assert r.value[0] == a.(nameRu := translate("Rake").value);
    assert r.value[1] == b.(nameRu := translate("Hoe").value);
    assert r.value == [a.(nameRu := translate("Rake").value), b.(nameRu := translate("Hoe").value)];
  }
}
