# Gardena catalogue scraper: the record-building kernel

The scraper loads the Gardena "combisystem" product listing, reads one
record per `.product` card (link, image URL, English name, article number),
translates every name into Russian, and writes one directory per product
holding the image and a `data.csv` record file. This project models the pure
string logic of that pipeline, all of it in `src/gardena/index.ts`:

- **JsString** (`jsstring.dfy`): the ECMAScript built-ins the kernel relies
  on, stated over sequences of Unicode characters rather than of UTF-16 code
  units (see "## Left out"). `String.prototype.trim` is modelled by `Trim`,
  with the exact set of WhiteSpace and LineTerminator characters. `indexOf`
  is modelled by `IndexOf`, up to the positions it reports. `replace` with a
  string pattern is modelled by `ReplaceFirst`, which replaces only the
  leftmost occurrence. `startsWith` is Dafny's prefix relation `p <= s`.
- **Product** (`product.dfy`, `product_examples.dfy`): a scraped card
  becomes a `ProductData` record (`collectProductData`, lines 65-72). A card
  is the four values the selectors pick out, each of which may be missing.
  Then comes the translation pass (lines 74-77). The translation call is a
  parameter `translate: string -> Option<string>`, where `None` stands for a
  rejected promise. One rejection rejects the whole `Promise.all`.
- **Save** (`save.dfy`): what the `for` loop of `saveProductData`
  (lines 99-118) derives per record:
  - the directory name: the sanitised Russian name, `_`, then the article
    number;
  - the download guard `image.startsWith('http')`;
  - the paths it builds;
  - the CSV text it writes.

  `path.join` is an opaque parameter `join`. The loop is the method
  `SaveProductData`, proved against the per-record function `PlanProduct`.
  The CSV text gets a partner: `ParseRow`/`ParseCsv`, a reader of the literal
  format. A record file reads back as its five values exactly when no value
  contains a double quote (`CsvRoundTrip`). Embedded quotes are written
  undoubled, so the output does not follow rule 7 of section 2 of RFC 4180.
  The model makes no claim of RFC conformance.

Two behaviours of the code are easy to misread, and the model keeps both:
- The article label `"Article No. "` is removed at its first occurrence
  anywhere in the trimmed text, not only in front (`ArticleLabelAfterText`).
  Since trimming happens first, an element holding only the label yields
  `"Article No."` (`ArticleNumberOfBareLabel`).
- The CSV Image column is always the local image path. It is never the
  remote URL, whether or not the download was attempted (`PlanProductSpec`).

## Model

| member | source | states |
|---|---|---|
| JsString.Trim | src/gardena/index.ts:70 | the result has no trimmable character at either end, and it is the input's slice starting where the leading trimmable run ends, with only trimmable characters cut off on either side |
| JsString.TrimOfPadded | src/gardena/index.ts:70 | any trimmable padding around a trimmed string is removed exactly: `Trim(pre + mid + post) == mid` |
| JsString.TrimOfTrimmed | src/gardena/index.ts:70 | a string with nothing to trim is its own trim |
| JsString.TrimIdempotent | src/gardena/index.ts:70 | trimming twice is trimming once |
| JsString.IndexOf | src/gardena/index.ts:70 | -1 exactly when the pattern occurs nowhere; otherwise an occurrence with no earlier one |
| JsString.ReplaceFirst | src/gardena/index.ts:70 | no contract of its own: `.replace` with a string pattern, whose meaning is stated by `JsString.ReplaceFirstAt` and `JsString.ReplaceFirstAbsent` |
| JsString.ReplaceFirstAt | src/gardena/index.ts:70 | with the leftmost occurrence at `i`, the result is the text before `i`, the replacement, and the text after the occurrence |
| JsString.ReplaceFirstAbsent | src/gardena/index.ts:70 | a string without the pattern is returned unchanged |
| Product.Link | src/gardena/index.ts:63-66 | the link has "https://www.gardena.com" as a prefix and continues with the href; a card without an href gives exactly the base URL |
| Product.NormaliseImage | src/gardena/index.ts:67-68 | a source starting with "//" gets "https:" in front; any other source, including one starting with "http", is kept; a missing source gives "" |
| Product.ProtocolRelativeBecomesHttps | src/gardena/index.ts:67-68 | a protocol-relative source becomes an "https://" URL ending in the source |
| Product.ArticleNumber | src/gardena/index.ts:70 | no contract of its own: trim, then remove the first label; its meaning is stated by `Product.ArticleNumberUnlabelled`, `Product.ArticleNumberLabelledAt`, `Product.ArticleNumberOfLabelled` and `Product.ArticleNumberMissing` |
| Product.ArticleNumberUnlabelled | src/gardena/index.ts:70 | text whose trimmed form holds no label comes out trimmed only |
| Product.ArticleNumberLabelledAt | src/gardena/index.ts:70 | the first occurrence of the label in the trimmed text is cut out, and the rest is kept in order |
| Product.ArticleNumberOfLabelled | src/gardena/index.ts:70 | whitespace, the label, a number not ending in whitespace, whitespace: the result is the number |
| Product.ArticleNumberMissing | src/gardena/index.ts:70 | a card without an article-number element gives "" |
| Product.ParseCard | src/gardena/index.ts:65-71 | a freshly built record has an empty Russian name and a link under the base URL |
| Product.ParseCards | src/gardena/index.ts:65-72 | exactly one record per card, record i built from card i |
| Product.WithNameRu | src/gardena/index.ts:74-77 | the spread update sets `nameRu` and keeps link, image, nameEn and articleNumber |
| Product.TranslateAll | src/gardena/index.ts:74-77 | succeeds iff every translation succeeds; then the length is kept, and record i is input record i with `nameRu` set to the translation of its `nameEn` |
| Product.CollectProductData | src/gardena/index.ts:60-78 | no contract of its own: card parsing followed by the translation pass; its meaning is stated by `Product.CollectProductDataSpec` |
| Product.CollectProductDataSpec | src/gardena/index.ts:60-78 | end to end from cards: fails iff some heading fails to translate; otherwise one record per card in card order, each with its link, image, name, article number and translated name |
| Product.TranslateKeepsCorrespondence | src/gardena/index.ts:74-77 | records named "Rake" and "Hoe" get the translations of "Rake" and "Hoe", in that order |
| ProductExamples.ArticleLabelAfterText | src/gardena/index.ts:70 | a label preceded by text holding no 'A' is removed from the middle, and the text before it is kept |
| ProductExamples.ArticleLabelInTheMiddle | src/gardena/index.ts:70 | the article text "X Article No. 5" gives "X 5" |
| ProductExamples.ArticleNumberOfBareLabel | src/gardena/index.ts:70 | the bare label "Article No. " gives "Article No.", because trimming removes the label's trailing space first |
| ProductExamples.ArticleNumberExample | src/gardena/index.ts:70 | the article text "  Article No. 12345  " gives "12345" |
| Save.Sanitize | src/gardena/index.ts:100 | same length; no reserved character anywhere in the output; each reserved character becomes '_'; every other character is unchanged |
| Save.SanitizeIdempotent | src/gardena/index.ts:100 | sanitising twice equals sanitising once |
| Save.SanitizeFixesClean | src/gardena/index.ts:100 | a name is left unchanged iff it holds no reserved character |
| Save.IsReserved | src/gardena/index.ts:100 | no contract of its own: the ten characters of the character class `[\/\\?%*:\|"<>]`; `Save.Sanitize` states what is done with them |
| Save.DirName | src/gardena/index.ts:100 | the name part is the sanitised Russian name (so it holds no reserved character), then comes '_', and then the article number verbatim; the length is the sum of the parts |
| Save.DirNameSplits | src/gardena/index.ts:100 | two directory names (for names of equal length) are equal iff the sanitised names and the article numbers are |
| Save.DirNameCollision | src/gardena/index.ts:100-102 | "A/B" and "A:B" with the same article number get the same directory |
| Save.DirNameExample | src/gardena/index.ts:100 | Russian name "A/B:C" with article "99" gives "A_B_C_99" |
| Save.ArticleNumberNotSanitised | src/gardena/index.ts:100 | a reserved character in the article number appears unchanged in the directory name |
| Save.ShouldDownload | src/gardena/index.ts:108 | no contract of its own: `image.startsWith('http')`; `Save.DownloadDecision` and `Save.EmptyImageNotDownloaded` state which images pass it |
| Save.DownloadDecision | src/gardena/index.ts:108 | after normalisation, the image is fetched iff the card's source exists and starts with "//" or "http" |
| Save.EmptyImageNotDownloaded | src/gardena/index.ts:108 | an empty image URL, which a card without a source yields, never triggers a download |
| Save.Quote | src/gardena/index.ts:115 | a quoted value is two characters longer than the value, starts and ends with a double quote, and holds the value, character by character, in between, with nothing escaped |
| Save.CsvContent | src/gardena/index.ts:115 | no contract of its own: the template literal written to `data.csv`; its meaning is stated by `Save.CsvContentIsQuotedRow` and `Save.CsvRoundTrip` |
| Save.CsvContentIsQuotedRow | src/gardena/index.ts:115 | the record file is the header, a newline, and the five values (link, image path, nameEn, nameRu, article number) quoted and comma-joined |
| Save.QuotedRowCons | src/gardena/index.ts:115 | a quoted row is its first quoted value, a comma, and the quoted row of the rest |
| Save.ParseQuotedRow | src/gardena/index.ts:115 | a row of quote-free values reads back as exactly those values |
| Save.CsvRoundTrip | src/gardena/index.ts:115 | the record file reads back as its five values iff none of them contains a double quote |
| Save.PlanProduct | src/gardena/index.ts:100-116 | no contract of its own: what one iteration of the loop derives from a record; its meaning is stated by `Save.PlanProductSpec` |
| Save.PlanProductSpec | src/gardena/index.ts:99-117 | per record: the directory is `join(buildDir, DirName)`; the image URL is fetched iff it starts with "http"; the Image column is the local image path regardless of the download; the other columns are the record's own values |
| Save.CardToOutput | src/gardena/index.ts:65-110 | from card to disk: the record of card i is fetched iff the card's source starts with "//" or "http", and its directory is the translated, sanitised heading plus '_' plus the extracted article number |
| Save.SaveProductData | src/gardena/index.ts:99-118 | the loop yields one output per record, in record order, output i being the plan for record i |

## Left out

- Browser session handling is left out: launch, viewport, `goto`, the cookie-consent click and the "show more" polling loop with `delay` (lines 7-50). It is browser I/O. The listing is taken as already expanded.
- cheerio parsing and CSS selection are left out (lines 61-65). A card is given directly as its four selected values. Where the selected element or attribute is missing, the value is `None`. A selection matching several elements is taken as already combined into one value.
- The translation service itself is left out (line 76). It is a foreign network call, modelled as the parameter `translate`. The concurrency of `Promise.all` is out of scope; its fan-in, order preservation and all-or-nothing failure are modelled.
- Filesystem effects are left out: `existsSync`, `rmSync`, `mkdirSync`, `writeFileSync` (lines 83, 91-96, 102, 117), and so is the clean-slate rebuild of the output root. The model states which paths are used and what is written to them.
- The abort when `mkdirSync` hits an existing directory is left out (line 102). `DirNameCollision` only shows when two records collide.
- `downloadImage`'s page navigation and buffer write are left out (lines 80-85). `fetch` records the URL that is navigated to. Whether a response arrives and the file is written is I/O.
- Path-normalisation semantics of `path.join` are left out (lines 88, 101, 107, 116). Paths are whatever the opaque `join` parameter returns.
- `main`'s orchestration and browser teardown are left out (lines 121-128).
- JsString.IndexOf: positions count Unicode characters, not UTF-16 code units as in ECMAScript. Dafny's `char` is a Unicode scalar value. Text holding a character outside the Basic Multilingual Plane (an emoji, say) before the label gets a smaller index than JavaScript's `indexOf` reports. A lone surrogate cannot be represented at all. The strings that `Trim`, `ReplaceFirst` and `Sanitize` produce are not affected, because every character they match lies in the Basic Multilingual Plane.
- JsString.ReplaceFirst: the `$` substitution patterns of the replacement string are not interpreted. The only replacement the kernel passes is the empty string.
