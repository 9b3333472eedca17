/**
 * What saveProductData derives from each translated record: the directory
 * name, whether the image is fetched, and the text of the record file. The
 * filesystem and the browser are not modelled; the loop produces, per
 * record, the paths it uses, the URL it fetches (if any) and the CSV text it
 * writes.
 */
module Save {
  import opened Product

  /** The characters the directory-name regex `[\/\\?%*:|"<>]` matches. */
  predicate IsReserved(c: char) {
    c == '/' || c == '\\' || c == '?' || c == '%' || c == '*'
    || c == ':' || c == '|' || c == '"' || c == '<' || c == '>'
  }

  predicate NoReserved(s: string) {
    forall i :: 0 <= i < |s| ==> !IsReserved(s[i])
  }

  /** `nameRu.replace(/[\/\\?%*:|"<>]/g, '_')`: every reserved character
      becomes an underscore, every other character stays where it was. */
  function Sanitize(s: string): (r: string)
    ensures |r| == |s|
    ensures NoReserved(r)
    ensures forall i :: 0 <= i < |s| && IsReserved(s[i]) ==> r[i] == '_'
    ensures forall i :: 0 <= i < |s| && !IsReserved(s[i]) ==> r[i] == s[i]
  {
    if s == [] then []
    else [if IsReserved(s[0]) then '_' else s[0]] + Sanitize(s[1..])
  }

  /** Sanitising twice is sanitising once. */
  lemma SanitizeIdempotent(s: string)
    ensures Sanitize(Sanitize(s)) == Sanitize(s)
  {
    var t := Sanitize(s);
    SanitizeFixesClean(t);
  }

  /** A name is left alone exactly when it holds no reserved character. */
  lemma SanitizeFixesClean(s: string)
    ensures Sanitize(s) == s <==> NoReserved(s)
  {
    if NoReserved(s) {
      assert forall i :: 0 <= i < |s| ==> Sanitize(s)[i] == s[i];
    }
  }

  /** The product directory's name: the sanitised Russian name, an
      underscore, and the article number, which is NOT sanitised. */
  function DirName(p: ProductData): (r: string)
    ensures |r| == |p.nameRu| + 1 + |p.articleNumber|
    ensures r[..|p.nameRu|] == Sanitize(p.nameRu)
    ensures r[|p.nameRu|] == '_'
    ensures r[|p.nameRu| + 1..] == p.articleNumber
  {
    var r := Sanitize(p.nameRu) + "_" + p.articleNumber;
    assert r[..|p.nameRu|] == Sanitize(p.nameRu);
    r
  }

  /** The directory name is determined by the sanitised name and the
      article number, and determines both back. */
  lemma DirNameSplits(p: ProductData, q: ProductData)
    requires |p.nameRu| == |q.nameRu|
    ensures DirName(p) == DirName(q) <==>
            Sanitize(p.nameRu) == Sanitize(q.nameRu) && p.articleNumber == q.articleNumber
  {
    var n := |p.nameRu|;
    assert DirName(p)[..n] == Sanitize(p.nameRu);
    assert DirName(q)[..n] == Sanitize(q.nameRu);
  }

  /** Two different names can share a directory: "A/B" and "A:B" with the
      same article number both give "A_B_" followed by it. */
  lemma DirNameCollision(p: ProductData, q: ProductData)
    requires p.nameRu == "A/B" && q.nameRu == "A:B"
    requires p.articleNumber == q.articleNumber
    ensures p.nameRu != q.nameRu && DirName(p) == DirName(q)
  {
    assert Sanitize(p.nameRu) == Sanitize(q.nameRu) by {
      assert Sanitize(p.nameRu)[1] == '_' == Sanitize(q.nameRu)[1];
    }
    DirNameSplits(p, q);
  }

  /** The worked example: Russian name "A/B:C" and article number "99"
      give the directory "A_B_C_99". */
  lemma DirNameExample(p: ProductData)
    requires p.nameRu == "A/B:C" && p.articleNumber == "99"
    ensures DirName(p) == "A_B_C_99"
  {
    var s := Sanitize(p.nameRu);
    assert s == "A_B_C" by {
      assert s[0] == 'A' && s[1] == '_' && s[2] == 'B' && s[3] == '_' && s[4] == 'C';
    }
  }

  /** A reserved character in the article number reaches the directory
      name unchanged. */
  lemma ArticleNumberNotSanitised(p: ProductData, i: int)
    requires 0 <= i < |p.articleNumber| && IsReserved(p.articleNumber[i])
    ensures IsReserved(DirName(p)[|p.nameRu| + 1 + i])
  {
    assert DirName(p)[|p.nameRu| + 1..][i] == p.articleNumber[i];
  }

  /** `product.image.startsWith('http')`: the guard on the image download. */
  predicate ShouldDownload(image: string) {
    "http" <= image
  }

  /** Followed back to the card: the image is fetched exactly when the card
      has an image source that is protocol-relative or already starts with
      "http"; in particular a card without one never triggers a download. */
  lemma DownloadDecision(src: Option<string>)
    ensures ShouldDownload(NormaliseImage(src)) <==>
            src.Some? && ("//" <= src.value || "http" <= src.value)
  {
    if src.Some? && "//" <= src.value {
      assert NormaliseImage(src)[..4] == "http";
    }
    if src.Some? && !("//" <= src.value) && "http" <= src.value {
      assert NormaliseImage(src) == src.value;
    }
  }

  /** An empty image URL (what a card without a source yields) is never
      fetched. */
  lemma EmptyImageNotDownloaded()
    ensures !ShouldDownload("")
    ensures !ShouldDownload(NormaliseImage(None))
  {
  }

  const CsvHeader: string := "Link,Image,Name EN,Name RU,Article Number"

  /** A value in double quotes, as it is: quotes inside it are not doubled
      (rule 7 of section 2 of RFC 4180 would double them). */
  function Quote(v: string): (r: string)
    ensures |r| == |v| + 2 && r[0] == '"' && r[|r| - 1] == '"'
    ensures forall i :: 0 <= i < |v| ==> r[i + 1] == v[i]
  {
    "\"" + v + "\""
  }

  /** The text of `data.csv`: the header, a newline, and the five values in
      double quotes, separated by commas. The Image column holds the local
      image path. */
  function CsvContent(p: ProductData, imageFilePath: string): string {
    CsvHeader + "\n"
    + Quote(p.link) + "," + Quote(imageFilePath) + "," + Quote(p.nameEn)
    + "," + Quote(p.nameRu) + "," + Quote(p.articleNumber)
  }

  /** The values of one row, each in double quotes, joined by commas. */
  function QuotedRow(fields: seq<string>): string
    requires |fields| > 0
  {
    if |fields| == 1 then Quote(fields[0])
    else QuotedRow(fields[..|fields| - 1]) + "," + Quote(fields[|fields| - 1])
  }

  /** The five values the record file carries, in column order. */
  function CsvFields(p: ProductData, imageFilePath: string): seq<string> {
    [p.link, imageFilePath, p.nameEn, p.nameRu, p.articleNumber]
  }

  /** Regrouping one appended value; a separate lemma so that each step of
      CsvContentIsQuotedRow is proved on its own. */
  lemma AppendField(x: string, row: string, v: string)
    ensures x + (row + "," + v) == x + row + "," + v
  {
  }

  /** The record file is the header line followed by the five values as a
      quoted row. */
  lemma CsvContentIsQuotedRow(p: ProductData, imageFilePath: string)
    ensures CsvContent(p, imageFilePath) == CsvHeader + "\n" + QuotedRow(CsvFields(p, imageFilePath))
  {
    var f := CsvFields(p, imageFilePath);
    var h := CsvHeader + "\n";
    assert f[..1] == [p.link];
    assert f[..2][..1] == f[..1];
    assert f[..3][..2] == f[..2];
    assert f[..4][..3] == f[..3];
    assert f[..5] == f;
    AppendField(h, QuotedRow(f[..1]), Quote(imageFilePath));
    AppendField(h, QuotedRow(f[..2]), Quote(p.nameEn));
    AppendField(h, QuotedRow(f[..3]), Quote(p.nameRu));
    AppendField(h, QuotedRow(f[..4]), Quote(p.articleNumber));
  }

  /** Splits `s` before its first double quote. */
  function SplitAtQuote(s: string): (r: (string, string))
    ensures r.0 + r.1 == s
    ensures '"' !in r.0
    ensures r.1 == [] || r.1[0] == '"'
  {
    if s == [] then ([], [])
    else if s[0] == '"' then ([], s)
    else
      var r := SplitAtQuote(s[1..]);
      assert s == [s[0]] + s[1..];
      ([s[0]] + r.0, r.1)
  }

  lemma {:induction false} SplitAtQuoteOf(field: string, rest: string)
    requires '"' !in field
    ensures SplitAtQuote(field + ("\"" + rest)) == (field, "\"" + rest)
  {
    if field == [] {
      assert field + ("\"" + rest) == "\"" + rest;
    } else {
      assert (field + ("\"" + rest))[1..] == field[1..] + ("\"" + rest);
      SplitAtQuoteOf(field[1..], rest);
      assert [field[0]] + field[1..] == field;
    }
  }

  /** Reads a row written in the literal format above: `"v1","v2",...,"vn"`,
      each value running to the next double quote. Every value it returns is
      free of double quotes. */
  function ParseRow(s: string): (r: Option<seq<string>>)
    ensures r.Some? ==> |r.value| > 0 && forall i :: 0 <= i < |r.value| ==> '"' !in r.value[i]
    decreases |s|
  {
    if s == [] || s[0] != '"' then None
    else
      var (field, rest) := SplitAtQuote(s[1..]);
      if rest == [] then None
      else if |rest| == 1 then Some([field])
      else if rest[1] != ',' then None
      else
        match ParseRow(rest[2..])
        case None => None
        case Some(more) => Some([field] + more)
  }

  /** Reads a whole record file: the header line, then one row. */
  function ParseCsv(text: string): Option<seq<string>> {
    var h := CsvHeader + "\n";
    if h <= text then ParseRow(text[|h|..]) else None
  }

  /** A quoted row read from the front: the first value, a comma, the rest. */
  lemma {:induction false} QuotedRowCons(v: string, rest: seq<string>)
    requires |rest| > 0
    ensures QuotedRow([v] + rest) == Quote(v) + "," + QuotedRow(rest)
    decreases |rest|
  {
    var fs := [v] + rest;
    var m := |rest|;
    if m == 1 {
      assert fs[..1] == [v];
    } else {
      var init, last := rest[..m - 1], rest[m - 1];
      calc {
        QuotedRow(fs);
        QuotedRow(fs[..m]) + "," + Quote(fs[m]);
        { assert fs[..m] == [v] + init; }
        QuotedRow([v] + init) + "," + Quote(last);
        { QuotedRowCons(v, init); }
        (Quote(v) + "," + QuotedRow(init)) + "," + Quote(last);
        { assert Quote(v) + "," + QuotedRow(init) + "," == Quote(v) + "," + (QuotedRow(init) + ","); }
        (Quote(v) + "," + (QuotedRow(init) + ",")) + Quote(last);
        { assert Quote(v) + "," + (QuotedRow(init) + ",") + Quote(last) == Quote(v) + "," + (QuotedRow(init) + "," + Quote(last)); }
        Quote(v) + "," + (QuotedRow(init) + "," + Quote(last));
        Quote(v) + "," + QuotedRow(rest);
      }
    }
  }

  /** Reading a row that holds one quoted value. */
  lemma ParseRowSingle(v: string)
    requires '"' !in v
    ensures ParseRow(Quote(v)) == Some([v])
  {
    var q := "\"";
    calc {
      Quote(v)[1..];
      { assert q + v + q == q + (v + q); }
      (q + (v + q))[1..];
      v + q;
      { assert v + q == v + (q + ""); }
      v + (q + "");
    }
    SplitAtQuoteOf(v, "");
  }

  /** Reading the first quoted value of a longer row. */
  lemma ParseRowCons(v: string, more: string)
    requires '"' !in v
    ensures ParseRow(Quote(v) + "," + more)
            == if ParseRow(more).Some? then Some([v] + ParseRow(more).value) else None
  {
    var q := "\"";
    var rest := q + ("," + more);
    var row := Quote(v) + "," + more;
    calc {
      row[1..];
      { assert q + v + q == q + (v + q); assert q + v + q + "," + more == q + v + q + ("," + more); }
      (q + (v + q) + ("," + more))[1..];
      { assert q + (v + q) + ("," + more) == q + (v + q + ("," + more)); }
      (q + (v + q + ("," + more)))[1..];
      v + q + ("," + more);
      { assert v + q + ("," + more) == v + (q + ("," + more)); }
      v + rest;
    }
    SplitAtQuoteOf(v, "," + more);
    assert rest[2..] == more;
  }

  lemma {:induction false} ParseQuotedRow(fields: seq<string>)
    requires |fields| > 0
    requires forall i :: 0 <= i < |fields| ==> '"' !in fields[i]
    ensures ParseRow(QuotedRow(fields)) == Some(fields)
  {
    if |fields| == 1 {
      ParseRowSingle(fields[0]);
      assert fields == [fields[0]];
    } else {
      assert [fields[0]] + fields[1..] == fields;
      QuotedRowCons(fields[0], fields[1..]);
      ParseQuotedRow(fields[1..]);
      ParseRowCons(fields[0], QuotedRow(fields[1..]));
    }
  }

  /** The record file reads back as the five values exactly when none of
      them holds a double quote: an embedded quote ends its value early. */
  lemma CsvRoundTrip(p: ProductData, imageFilePath: string)
    ensures ParseCsv(CsvContent(p, imageFilePath)) == Some(CsvFields(p, imageFilePath))
            <==> forall i :: 0 <= i < 5 ==> '"' !in CsvFields(p, imageFilePath)[i]
  {
    var f := CsvFields(p, imageFilePath);
    var h := CsvHeader + "\n";
    CsvContentIsQuotedRow(p, imageFilePath);
    var text := CsvContent(p, imageFilePath);
    assert h <= text && text[|h|..] == QuotedRow(f);
    if forall i :: 0 <= i < 5 ==> '"' !in f[i] {
      ParseQuotedRow(f);
    }
  }

  /** What the loop body does for one record: the directory it creates, the
      image path, the URL it fetches into that path (only when the guard
      holds), and the record file it writes. Paths are built with the
      `join` parameter, which stands for `path.join`. */
  datatype ProductOutput = ProductOutput(
    dir: string,
    imageFilePath: string,
    fetch: Option<string>,
    csvFilePath: string,
    csvContent: string)

  function PlanProduct(p: ProductData, buildDir: string, join: (string, string) -> string)
    : (r: ProductOutput)
  {
    var dir := join(buildDir, DirName(p));
    var imageFilePath := join(dir, "image.png");
    ProductOutput(
      dir,
      imageFilePath,
      if ShouldDownload(p.image) then Some(p.image) else None,
      join(dir, "data.csv"),
      CsvContent(p, imageFilePath))
  }

  /** Per record: the directory is named by DirName, the image URL is
      fetched exactly when it starts with "http", and the record file's
      Image column is the local image path whether or not anything was
      fetched; the other columns are the record's own values. */
  lemma PlanProductSpec(p: ProductData, buildDir: string, join: (string, string) -> string)
    ensures var o := PlanProduct(p, buildDir, join);
      && o.dir == join(buildDir, DirName(p))
      && o.imageFilePath == join(o.dir, "image.png")
      && (o.fetch.Some? <==> "http" <= p.image)
      && (o.fetch.Some? ==> o.fetch.value == p.image)
      && o.csvFilePath == join(o.dir, "data.csv")
      && CsvHeader + "\n" <= o.csvContent
      && o.csvContent[|CsvHeader| + 1..] == QuotedRow(CsvFields(p, o.imageFilePath))
  {
    var o := PlanProduct(p, buildDir, join);
    CsvContentIsQuotedRow(p, o.imageFilePath);
  }

  /** From card to disk, for the record built from card `i`: its image is
      fetched exactly when the card's image source is protocol-relative or
      starts with "http", and its directory is named after the translated
      heading and the extracted article number. */
  lemma CardToOutput(cards: seq<Card>, translate: string -> Option<string>,
                     buildDir: string, join: (string, string) -> string, i: int)
    requires CollectProductData(cards, translate).Some? && 0 <= i < |cards|
    ensures |CollectProductData(cards, translate).value| == |cards|
    ensures var c := cards[i];
            var o := PlanProduct(CollectProductData(cards, translate).value[i], buildDir, join);
            && (o.fetch.Some? <==> c.imageSrc.Some? && ("//" <= c.imageSrc.value || "http" <= c.imageSrc.value))
            && o.dir == join(buildDir, Sanitize(translate(if c.heading.Some? then c.heading.value else "").value)
                                       + "_" + ArticleNumber(c.articleText))
  {
    CollectProductDataSpec(cards, translate);
    var p := CollectProductData(cards, translate).value[i];
    DownloadDecision(cards[i].imageSrc);
    PlanProductSpec(p, buildDir, join);
  }

  /** The `for (const product of products)` loop of saveProductData: one
      output per record, in record order. */
  method SaveProductData(products: seq<ProductData>, buildDir: string, join: (string, string) -> string)
    returns (outputs: seq<ProductOutput>)
    ensures |outputs| == |products|
    ensures forall i :: 0 <= i < |products| ==> outputs[i] == PlanProduct(products[i], buildDir, join)
  {
    outputs := [];
    for k := 0 to |products|
      invariant |outputs| == k
      invariant forall i :: 0 <= i < k ==> outputs[i] == PlanProduct(products[i], buildDir, join)
    {
      var p := products[k];
      var dir := join(buildDir, DirName(p));
      var imageFilePath := join(dir, "image.png");
      var fetch: Option<string> := None;
      if ShouldDownload(p.image) {
        fetch := Some(p.image);
      }
      var csvContent := CsvContent(p, imageFilePath);
      var output := ProductOutput(dir, imageFilePath, fetch, join(dir, "data.csv"), csvContent);
      assert output == PlanProduct(p, buildDir, join) by {
        assert fetch == (if ShouldDownload(p.image) then Some(p.image) else None);
      }
      var done := outputs;
      outputs := done + [output];
      assert forall i :: 0 <= i < k ==> outputs[i] == done[i];
      assert outputs[k] == PlanProduct(products[k], buildDir, join);
    }
  }
}
