/**
 * Further properties of the article-number extraction, and worked examples
 * on literal article texts.
 */
module ProductExamples {
  import opened JsString
  import opened Product

  /** The label cannot start inside a prefix that holds no 'A'. */
  lemma NoLabelWithin(pre: string, rest: string)
    requires ArticleLabel[0] !in pre
    ensures forall j :: 0 <= j < |pre| ==> !OccursAt(pre + rest, ArticleLabel, j)
  {
    var t := pre + rest;
    forall j | 0 <= j < |pre| ensures !OccursAt(t, ArticleLabel, j) {
      assert t[j] == pre[j] != ArticleLabel[0];
      if j + |ArticleLabel| <= |t| {
        assert t[j..j + |ArticleLabel|][0] == t[j];
      }
    }
  }

  /** The pieces of `pre + ArticleLabel + number` the extraction works on. */
  lemma LabelAfterTextFacts(pre: string, number: string)
    requires pre != [] && !IsTrimmable(pre[0]) && ArticleLabel[0] !in pre
    requires number != [] && !IsTrimmable(number[|number| - 1])
    ensures var t := pre + ArticleLabel + number;
            && IsTrimmed(t)
            && OccursAt(t, ArticleLabel, |pre|)
            && (forall j :: 0 <= j < |pre| ==> !OccursAt(t, ArticleLabel, j))
            && t[..|pre|] + t[|pre| + |ArticleLabel|..] == pre + number
  {
    var t := pre + ArticleLabel + number;
    var a := |pre|;
    assert t == pre + (ArticleLabel + number);
    assert t[0] == pre[0];
    assert t[|t| - 1] == number[|number| - 1];
    NoLabelWithin(pre, ArticleLabel + number);
    assert t[a..a + |ArticleLabel|] == ArticleLabel;
    assert t[..a] == pre;
    assert t[a + |ArticleLabel|..] == number;
  }

  /** The label is removed wherever it is first found, not only in front:
      text before it that holds no 'A' (so no earlier occurrence) is kept. */
  lemma ArticleLabelAfterText(pre: string, number: string)
    requires pre != [] && !IsTrimmable(pre[0]) && ArticleLabel[0] !in pre
    requires number != [] && !IsTrimmable(number[|number| - 1])
    ensures ArticleNumber(Some(pre + ArticleLabel + number)) == pre + number
  {
    var t := pre + ArticleLabel + number;
    LabelAfterTextFacts(pre, number);
    TrimOfTrimmed(t);
    ArticleNumberLabelledAt(t, |pre|);
  }

  /** "X Article No. 5" gives "X 5": the label is cut out of the middle. */
  lemma ArticleLabelInTheMiddle()
    ensures ArticleNumber(Some("X Article No. 5")) == "X 5"
  {
    var pre, number := "X ", "5";
    assert pre + ArticleLabel + number == "X Article No. 5";
    assert pre + number == "X 5";
    assert ArticleLabel[0] !in pre;
    ArticleLabelAfterText(pre, number);
  }

  /** An element holding only the label, "Article No. ", trims to
      "Article No." (the trailing space goes first), which no longer matches
      the label, so the record's article number is "Article No.". */
  lemma ArticleNumberOfBareLabel()
    ensures ArticleNumber(Some("Article No. ")) == "Article No."
  {
    var text, space := "Article No.", " ";
    assert text + space == ArticleLabel;
    TrimOfPadded([], text, space);
    assert [] + text + space == text + space;
    assert forall j :: 0 <= j <= |text| ==> !OccursAt(text, ArticleLabel, j);
    ArticleNumberUnlabelled(text + space);
  }

  /** "  Article No. 12345  " gives "12345". */
  lemma ArticleNumberExample()
    ensures ArticleNumber(Some("  Article No. 12345  ")) == "12345"
  {
    var pad, number := "  ", "12345";
    assert pad + ArticleLabel + number + pad == "  Article No. 12345  ";
    assert AllTrimmable(pad) by { assert forall i :: 0 <= i < |pad| ==> pad[i] == ' '; }
    assert !IsTrimmable(number[|number| - 1]) by { assert number[4] == '5'; }
    ArticleNumberOfLabelled(pad, number, pad);
  }
}
