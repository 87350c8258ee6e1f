# Product page scrapers, modelled in Dafny

`parsing-functions.js` holds two functions. They are meant to be pasted into
a browser console on a shop's page and read data from the rendered page:

- `getProductArticles()` (lines 1-100) collects the article numbers (SKUs)
  of the products on a catalogue page. It works in up to three tiers:
  1. product cards, read by id attribute, else by article element, else by a
     label in the card's text;
  2. only when there is no product card at all, looser cards, read the same
     way without the id;
  3. a scan of the text of every element, when the first two tiers yield
     nothing.
  The values are returned de-duplicated in the order of first occurrence.
- `getProductAttributes()` (lines 107-246) collects the product's
  characteristics into a plain object, name to value. It works in up to
  three tiers:
  1. the rows of the first characteristics block;
  2. only without such a block, the items of the element after the first
     heading that announces characteristics;
  3. still without a block and with nothing from the section, definition
     lists, tables and other key/value containers anywhere on the page.

This project models both functions and proves what they return.

## How the model is built

- **The page** (`dom.dfy`) is an immutable tree of elements and text leaves.
  - The document is the root element, so `document.querySelectorAll('*')`
    covers every element below the root (including `html`).
  - Every query returns elements in document order, each paired with its
    `nextElementSibling`.
  - A CSS selector list is a predicate on elements. Each selector predicate
    carries `ensures IsX(n) ==> n.Element?`. That clause only records that
    a selector matches elements and states nothing about which ones, so
    selectors with the same clause have the same contract. The order of the
    selectors in the list does not matter, because a browser returns the
    matches of a selector list in document order.
  - Tag names are stored lower-case. The upper-case comparisons
    `tagName === 'DL'` and `tagName === 'TABLE'` are therefore tests for
    `dl` and `table`.
- **`getAttribute`** is read as a string in which a missing attribute and an
  empty one are both `""`. The code only tests these values for truth, and
  both are falsy.
- **Callbacks and loops.**
  - Each `forEach` callback is a function from the element to an optional
    value.
  - The loops are methods: `PushEach` for `articles.push`, `AssignEach` for
    `attributes[name] = value`, and the heading loop with its `break`.
  - Each method is proved equal to a specification function: `Harvest`,
    `StoreAll` or `FindSection`. The lemmas are proved about those functions.
- **`[...new Set(articles)]`** is `Dedup`: insertion order, first occurrence
  kept.
- **The result object** of `getProductAttributes` is a plain JavaScript
  object. On it, `obj["__proto__"] = "text"` goes to the prototype setter,
  which ignores a string, so the key never appears. `Put` models exactly
  that. `StoreAllIsAssign` proves that this is a dictionary with
  last-write-wins minus that one key.
- **Strings** (`text.dfy`):
  - `trim()` and `\s` use ECMAScript's white space and line terminator
    characters.
  - `indexOf` returns -1 when the character is absent.
  - `substring` is slicing.
  - `replace(/[:\s]+$/, '')` removes the maximal trailing run of colons and
    white space.
- **The label patterns** `/артикул[:\s]+([A-Za-z0-9-]+)/i` and
  `/арт[\.:\s]+([A-Za-z0-9-]+)/i` (`label.dfy`).
  - They are modelled as a leftmost scan, `FindFrom`. The scan is proved to
    return the capture of the pattern's leftmost match, defined
    independently as `Label.LeftmostMatch`.
  - The capture group is greedy. No token character is also a separator, so
    backtracking cannot change the capture.
  - Without the `u` flag, `/i` compares the upper-case forms.
    `FoldLabelChar` gives the letter each character matches among the
    label's lower-case letters. This includes U+1C84 and U+1C85, two
    Cyrillic characters whose upper case is `Т`.

### Behaviours of the code worth knowing

- A characteristics block whose rows yield nothing leaves the result empty.
  Tier 3 runs only inside the branch without a block, not whenever the
  object is still empty (`Attributes.EmptyBlockIsFinal`).
- A row falls back to the colon split only when it lacks a name element or
  a value element. A row that has both, with empty text in one of them, is
  skipped (`Attributes.SpecRowCells`, `Attributes.SpecRowBlankValueSkipped`).
- A card's article element is the first descendant in document order that
  matches any of `[data-article]`, `[data-sku]`, `.article` or `.sku`. It is
  not chosen by selector priority. An article element that carries nothing
  silences the label search in the card's text
  (`Articles.BlankArticleElementSilencesLabel`).
- The document scan's pre-check looks for the literal strings `артикул`,
  `Артикул` and `арт.` only. The patterns themselves accept a label in
  capitals, but an element whose text carries the label only in capitals
  and none of `артикул`, `Артикул`, `арт.` is skipped
  (`Articles.ScanSkipsCapitalLabel`).
- Attribute values are not trimmed. A card whose `data-product-id` is a
  single space yields that space as its article.
- `.specifications` is in the selector of attributes tier 3, but tier 3
  runs only when no element is a characteristics block. Every
  `.specifications` element is one, so that selector never contributes
  (`Attributes.SpecificationsNeverInStructure`).

## Model

| member | source | states |
|---|---|---|
| Util.Harvest | parsing-functions.js:15-38 | the callbacks' pushes leave a list no longer than the elements, holding exactly the values some element's callback yields |
| Util.Dedup | parsing-functions.js:95 | `[...new Set(s)]` has no repeated value and holds exactly the values of `s` |
| Util.PushEach | parsing-functions.js:15-38 | the `forEach`-with-`push` loop leaves exactly the values the callback yields, in element order |
| Util.Gather | parsing-functions.js:183-238 | the outer `forEach` of tier 3 writes exactly the values some element's callback writes |
| Util.HarvestEmpty | parsing-functions.js:76 | the pushed list is empty exactly when every callback yields nothing |
| Util.DedupEmptyIff | parsing-functions.js:95 | de-duplication empties a list only when the list was empty |
| Util.DedupFirstOccurrenceOrder | parsing-functions.js:95 | the de-duplicated list keeps the order of first occurrence |
| Util.DedupOfDistinct | parsing-functions.js:95 | a list without repeated values comes back unchanged |
| Util.AssignLastWriteWins | parsing-functions.js:129 | after sequential assignment a key holds the value of its last write |
| Util.Assign | parsing-functions.js:129 | after sequential `obj[k] = v` the keys are the old keys and the written ones |
| Util.AssignUntouched | parsing-functions.js:129 | a key no pair writes keeps its old value |
| Util.AssignProvenance | parsing-functions.js:129 | every entry after assignment is an old entry or one of the written pairs |
| Util.AssignAppend | parsing-functions.js:184-237 | assigning two runs of pairs is assigning the first and then the second |
| Dom.ForestTextAppend | parsing-functions.js:30 | `textContent` of a run of siblings followed by another is the first run's text followed by the second's |
| Dom.Attr | parsing-functions.js:21-22 | `getAttribute` gives the attribute's value, and `""` when it is absent |
| Dom.SelectFirst | parsing-functions.js:18 | the first match of a selector in a list is its first element that matches: none before it does |
| Dom.SelectAppend | parsing-functions.js:7 | filtering keeps order: the matches in one run followed by another are the first run's matches followed by the second's |
| Dom.QueryAll | parsing-functions.js:7 | `querySelectorAll` returns exactly the matching elements below the root, each with its next element sibling |
| Dom.QueryAllInOrder | parsing-functions.js:7 | the matches come in document order: split the descendants anywhere, and the matches of the first part come before those of the second |
| Dom.QueryFirst | parsing-functions.js:18 | `querySelector` returns the first matching element in document order (no earlier descendant matches), and none exactly when the query list is empty |
| Dom.TextContent | parsing-functions.js:30 | `textContent` as the text leaves of the subtree in document order; no ensures, its concatenation law is `Dom.ForestTextAppend` |
| Dom.Descendants | parsing-functions.js:7 | `querySelectorAll`'s candidates: the pre-order walk below the root, each reached element paired with its `nextElementSibling` |
| Dom.ForestWalkReaches | parsing-functions.js:7 | the walk of a list of siblings reaches each element of the list, with its next element sibling |
| Dom.ChildIsDescendant | parsing-functions.js:7 | each child element of the root is among its descendants, with its `nextElementSibling` |
| Dom.NextElement | parsing-functions.js:155 | `nextElementSibling` is the first element among the following siblings (only text comes before it), and absent exactly when only text follows |
| Dom.QueryAllEmpty | parsing-functions.js:10 | a query is empty exactly when no element below the root matches |
| Text.Trim | parsing-functions.js:23 | `trim()` returns a trimmed slice of the text with only white space cut on either side |
| Text.TrimPadded | parsing-functions.js:126 | `trim()` of trimmed text padded with white space gives the text back |
| Text.TrimIdempotent | parsing-functions.js:126 | trimming twice is trimming once |
| Text.TrimNonEmpty | parsing-functions.js:133 | a text with a non-white character stays non-empty when trimmed |
| Text.TrimSubset | parsing-functions.js:137 | trimming brings in no character |
| Text.StripTrailingSeparators | parsing-functions.js:125 | the result is a prefix of the text, only colons and white space are cut, and it ends in neither |
| Text.IndexOf | parsing-functions.js:134 | `indexOf` is -1 exactly when the character is absent, else its first position |
| Text.IndexOfAt | parsing-functions.js:166 | the first occurrence of a character is what `indexOf` reports |
| Text.Contains | parsing-functions.js:83 | `includes`: the substring is no longer than the string, the empty one is always included, a prefix is included; its exact meaning is `Text.ContainsIff` |
| Text.ContainsIff | parsing-functions.js:83 | `includes` holds exactly when the substring occurs at some position |
| Text.ToLower | parsing-functions.js:153 | `toLowerCase` keeps the length and lowers each character |
| Text.SplitAtColon | parsing-functions.js:133-143 | a split is taken at the first colon of the trimmed text, past position 0, and yields two trimmed non-empty halves, the name without a colon; no colon yields nothing |
| Text.SplitAtColonAt | parsing-functions.js:136-141 | a first colon past the start with non-empty trimmed halves yields exactly those halves |
| Text.WrittenPairParts | parsing-functions.js:133-138 | the split positions of a name-colon-value text padded with white space |
| Text.TrimTrailingWhite | parsing-functions.js:137 | trailing white space after trimmed text is cut by `trim()` |
| Text.TrimLeadingWhite | parsing-functions.js:138 | leading white space before trimmed text is cut by `trim()` |
| Text.SplitAtColonRoundTrip | parsing-functions.js:165-175 | a name without colons written as `name: value`, with any white space around the parts, splits back into that name and value |
| Text.NoColonBeforeWhite | parsing-functions.js:166 | appending white space adds no colon |
| Text.LeadingColonRejected | parsing-functions.js:168 | a text whose first non-white character is the colon yields no pair |
| Text.LeadingRunExact | parsing-functions.js:31 | a run of matching characters ended by a non-matching one or the end is the maximal run |
| Label.TokenAfter | parsing-functions.js:31 | the capture of `[:\s]+([A-Za-z0-9-]+)` after the word is a non-empty token of `[A-Za-z0-9-]` |
| Label.TokenAfterSound | parsing-functions.js:31 | the capture after the word is the maximal token run that follows a non-empty separator run |
| Label.MatchAt | parsing-functions.js:31 | a capture found at one position is a non-empty token of `[A-Za-z0-9-]` |
| Label.FindFrom | parsing-functions.js:31 | the scan returns the capture at some position at or after the start, and nothing only when no position matches |
| Label.MatchLabel | parsing-functions.js:31-32 | the capture of either pattern is a non-empty token of `[A-Za-z0-9-]` |
| Label.FoldLabelChar | parsing-functions.js:31 | each of the label's lower-case letters folds to itself and its capital to it (32 code points lower); a character folds to a label letter only as that letter, its capital, U+1C84 or U+1C85 |
| Label.FoldedPrefixIff | parsing-functions.js:31 | the character-by-character comparison finds the label case-insensitively exactly where it stands |
| Label.MatchAtSound | parsing-functions.js:31 | what the scan captures at a position is a match of the pattern there |
| Label.MatchAtComplete | parsing-functions.js:31 | a match of the pattern at a position is what the scan captures there |
| Label.MatchAtIff | parsing-functions.js:31 | the scan at a position captures `t` exactly when the pattern matches there capturing `t` |
| Label.FindFromReaches | parsing-functions.js:31 | the scan stops at the first matching position |
| Label.FindFromNone | parsing-functions.js:31 | with no matching position the scan finds nothing |
| Label.FindFromFindsLeftmost | parsing-functions.js:31 | what the scan finds is the leftmost match's capture |
| Label.LeftmostIsFound | parsing-functions.js:31 | the leftmost match's capture is what the scan finds |
| Label.FindFromNoneIff | parsing-functions.js:31 | the scan finds nothing exactly when the pattern matches nowhere |
| Label.FindFromStartIff | parsing-functions.js:31 | `match` on one pattern is the leftmost match, both directions, and null exactly when there is none |
| Label.SeparatorsSeparate | parsing-functions.js:31-32 | `[:\s]` and `[\.:\s]` share no character with `[A-Za-z0-9-]` |
| Label.MatchLabelIsLeftmostMatch | parsing-functions.js:31-34 | the result is the full word's leftmost capture, or, when the full word matches nowhere, the abbreviation's |
| Label.FullLabelCapture | parsing-functions.js:31 | the full word in any case, separators and a token, then a non-token character or the end, yield that token |
| Label.MatchAtRoom | parsing-functions.js:31 | a match needs room for the word, one separator and one token character |
| Label.TooShortForFullLabel | parsing-functions.js:31 | a text shorter than nine characters cannot match the full word |
| Label.ShortLabelCapture | parsing-functions.js:31-32 | in a text where the full word matches nowhere, the abbreviation in any case, separators and a token, then a non-token character or the end, yield that token |
| Label.FullLabelExample | parsing-functions.js:31 | `Артикул: ABC-123` yields `ABC-123` |
| Label.ShortLabelExample | parsing-functions.js:32 | `арт. XY9` yields `XY9` |
| Label.FoldsToA | parsing-functions.js:31 | only `а` and `А` match the label's first letter case-insensitively |
| Label.LetterMismatch | parsing-functions.js:31 | the pattern does not match where a letter of the word is missing |
| Label.NoSeparatorAfter | parsing-functions.js:31 | the word followed by a character that is no separator is no match there |
| Label.OnlyAtStart | parsing-functions.js:31-32 | helper of `UnlabelledTextExample`: in a text of the shape `а`, letters without `а`, `а`, a blank and more such letters, a word beginning `ар` can match only at the start |
| Label.UnlabelledShape | parsing-functions.js:31-32 | helper of `UnlabelledTextExample`: the example text, given by its letters, yields nothing from either pattern |
| Label.UnlabelledTextExample | parsing-functions.js:31-32 | `артикулечка не подходит` yields nothing |
| Articles.IsProductCard | parsing-functions.js:7 | the selector list `.product-card, .product-item, [data-product-id]` as a predicate |
| Articles.IsPossibleCard | parsing-functions.js:12 | the selector list `article, .catalog-item, .item, [itemtype*="Product"]`, with `*=` as substring containment |
| Articles.IsArticleElement | parsing-functions.js:18 | the selector list `[data-article], [data-sku], .article, .sku` |
| Articles.Or | parsing-functions.js:43-45 | `a \|\| b` on strings is `a` when non-empty, else `b` |
| Articles.NonEmpty | parsing-functions.js:25 | the `if (article)` guard lets exactly the non-empty strings through |
| Articles.ElementArticle | parsing-functions.js:21-23 | an article element's value is empty exactly when `data-article`, `data-sku` and the trimmed text all are, and is otherwise one of them |
| Articles.CardBodyArticle | parsing-functions.js:51-70 | what a card's body yields is non-empty |
| Articles.ArticleElementChain | parsing-functions.js:53-60 | with an article element, the card yields its non-empty `data-article`, else its non-empty `data-sku`, else its trimmed text when that is non-empty |
| Articles.CardLabelFallback | parsing-functions.js:61-69 | only a card without an article element looks for a label in its text |
| Articles.CardId | parsing-functions.js:43-45 | a card's id is empty exactly when `data-product-id`, `data-id` and `id` all are, and is otherwise one of them |
| Articles.ProductCardArticle | parsing-functions.js:41-72 | what a product card yields is non-empty |
| Articles.PossibleCardArticle | parsing-functions.js:15-38 | what a looser card yields is non-empty |
| Articles.MentionsArticle | parsing-functions.js:83 | the pre-check holds exactly when `артикул`, `Артикул` or `арт.` occurs in the text at some position |
| Articles.ScanArticle | parsing-functions.js:80-91 | the document scan takes something from an element only when its text passes the pre-check, and then exactly what the patterns capture; never an empty string |
| Articles.CardPass | parsing-functions.js:10-73 | the card tiers push no empty string |
| Articles.Collected | parsing-functions.js:75-92 | the list before de-duplication holds no empty string, and is the card tiers' list whenever that is non-empty |
| Articles.ProductArticles | parsing-functions.js:1-100 | the result has no repeated value and holds exactly the collected values |
| Articles.ArticlesNonEmpty | parsing-functions.js:25-26 | no article in the result is empty |
| Articles.ArticlesInFirstFoundOrder | parsing-functions.js:95 | the result lists the articles in the order they were first found |
| Articles.ProductCardsDecide | parsing-functions.js:39-76 | once a product card yields an article, the result is exactly what the product cards yield |
| Articles.PossibleCardsDecide | parsing-functions.js:10-38 | without product cards, once a looser card yields an article, the result is exactly what the looser cards yield |
| Articles.DocumentScanDecides | parsing-functions.js:76-92 | when the cards that were read yield nothing, the result is exactly what the document scan finds |
| Articles.NoArticlesIff | parsing-functions.js:1-100 | the result is empty exactly when the cards read and the document scan all yield nothing |
| Articles.CardPassEmptyIff | parsing-functions.js:10-76 | the card tiers push nothing exactly when every card read yields nothing |
| Articles.ProductCardPriority | parsing-functions.js:43-49 | `data-product-id` wins over `data-id` over `id`, and a card without ids is read like a looser card |
| Articles.BlankArticleElementSilencesLabel | parsing-functions.js:53-61 | an article element that carries nothing makes its card yield nothing |
| Articles.MissingCharExcludes | parsing-functions.js:83 | a text lacking a character of the word does not include it |
| Articles.CapitalLabelMatches | parsing-functions.js:64-65 | the patterns accept `АРТИКУЛ: X1` |
| Articles.ScanSkipsCapitalLabel | parsing-functions.js:83-85 | the document scan skips an element whose text is `АРТИКУЛ: X1` |
| Articles.RepeatedIdsExample | parsing-functions.js:95 | `101, 102, 101` becomes `101, 102` |
| Articles.LabelOnlyCard | parsing-functions.js:61-69 | a product card without ids or article element, with text `Артикул: 103`, yields `103` |
| Articles.ThreeCardsExample | parsing-functions.js:1-100 | cards with ids `101` and `102` and a third with only `Артикул: 103` in its text give `101, 102, 103` |
| Articles.GetProductArticles | parsing-functions.js:1-100 | the extractor returns what `ProductArticles` states |
| Attributes.Put | parsing-functions.js:129 | `obj[k] = v` sets `k` to `v` and leaves every other key as it was; on `__proto__` it changes nothing |
| Attributes.StoreAll | parsing-functions.js:129 | writing into an object without `__proto__` never adds `__proto__` |
| Attributes.StoreAllIsAssign | parsing-functions.js:129 | writing into a plain object is dictionary assignment minus the `__proto__` key |
| Attributes.StoreAllAppend | parsing-functions.js:184-237 | writing two runs of pairs is writing the first and then the second |
| Attributes.StoreAllExtend | parsing-functions.js:141 | writing one more pair is one more `obj[name] = value` |
| Attributes.StoreAllEntries | parsing-functions.js:141 | the object holds a key exactly when some pair writes it and it is not `__proto__`, with a value written under it |
| Attributes.StoreAllLastWriteWins | parsing-functions.js:173 | a key holds the value of its last write |
| Attributes.AssignEach | parsing-functions.js:119-145 | the `forEach` that writes each yielded pair writes exactly the yielded pairs, in order |
| Attributes.BothPresent | parsing-functions.js:128 | the `if (name && value)` guard lets a pair through exactly when both are non-empty |
| Attributes.StrippedNameTrimmed | parsing-functions.js:125 | a stripped name is trimmed and does not end in a colon |
| Attributes.IsSpecBlock | parsing-functions.js:113 | the selector list `.product-attributes, .product-specs, .specifications, .characteristics, [data-tab="characteristics"]`, the last as value equality |
| Attributes.IsSpecRow | parsing-functions.js:117 | the selector list `tr, .attribute-item, .spec-item, li` |
| Attributes.IsNameCell | parsing-functions.js:121 | the selector list `.attribute-name, .spec-name, .name, th, dt` |
| Attributes.IsValueCell | parsing-functions.js:122 | the selector list `.attribute-value, .spec-value, .value, td, dd` |
| Attributes.IsHeading | parsing-functions.js:149 | the selector list `h1` to `h6` |
| Attributes.IsAttributesHeading | parsing-functions.js:153-154 | the heading test on the lower-cased `textContent`; no ensures, its exact meaning is `Attributes.AttributesHeadingIff` |
| Attributes.AttributesHeadingIff | parsing-functions.js:153-154 | a heading announces characteristics exactly when `характеристики`, `спецификации` or `параметры` occurs at some position of its lower-cased text |
| Attributes.IsSectionItem | parsing-functions.js:162 | the selector list `li, tr, .item` |
| Attributes.IsStructural | parsing-functions.js:182 | the selector list `dl, table, .attributes, .specifications` |
| Attributes.IsDt | parsing-functions.js:187 | the selector `dt` |
| Attributes.IsTr | parsing-functions.js:204 | the selector `tr` |
| Attributes.IsCell | parsing-functions.js:207 | the selector list `td, th` |
| Attributes.IsContainerItem | parsing-functions.js:221 | the selector list `.item, li, .row` |
| Attributes.IsItemName | parsing-functions.js:224 | the selector list `.name, .label, .key` |
| Attributes.IsItemValue | parsing-functions.js:225 | the selector list `.value, .data` |
| Attributes.SpecRowPair | parsing-functions.js:121-143 | a block row yields a trimmed non-empty name and value, the name not ending in a colon |
| Attributes.SpecRowCells | parsing-functions.js:124-130 | a row with a name cell and a value cell yields exactly the stripped name and the trimmed value, and nothing when either is empty |
| Attributes.SpecRowBlankValueSkipped | parsing-functions.js:124-130 | a row with both cells and an empty value yields nothing, whatever its text |
| Attributes.SpecRowColonFallback | parsing-functions.js:131-143 | a row without a name cell or without a value cell is split at its first colon |
| Attributes.SectionItemPair | parsing-functions.js:165-175 | a section item yields a trimmed non-empty name and value |
| Attributes.DefinitionPair | parsing-functions.js:189-199 | a `dt` yields a pair exactly when its next element is a `dd` and both trimmed texts are non-empty, and the pair is its own trimmed text and the `dd`'s |
| Attributes.TableRowPair | parsing-functions.js:206-216 | a table row with fewer than two cells yields nothing; otherwise it yields a pair exactly when the trimmed texts of its first two cells are both non-empty, and the pair is those texts |
| Attributes.ContainerItemPair | parsing-functions.js:223-234 | a container item yields a pair exactly when it has a name element and a value element whose trimmed texts are both non-empty, and the pair is those texts |
| Attributes.ContainerPairs | parsing-functions.js:184-237 | every pair a tier-3 element writes is trimmed and non-empty; for a `dl` its pairs are exactly those some `dt` yields, for a `table` (not `dl`) exactly those some `tr` yields, otherwise exactly those some `.item, li, .row` yields |
| Attributes.StructuralPairs | parsing-functions.js:182-237 | every pair tier 3 writes is trimmed and non-empty, and a pair is written exactly when some tier-3 element writes it |
| Attributes.FindSection | parsing-functions.js:149-158 | the section is the next element of the first heading announcing characteristics, and none when no heading does |
| Attributes.HarvestedKeyYielded | parsing-functions.js:119-145 | every written name was yielded by some element |
| Attributes.YieldedKeyHarvested | parsing-functions.js:119-145 | every name an element yields is written |
| Attributes.StoredKeysIff | parsing-functions.js:119-145 | after the loop the object holds a name exactly when some element yields it and it is not `__proto__` |
| Attributes.StoredPairsGood | parsing-functions.js:128-129 | every stored entry of well-formed pairs is well formed |
| Attributes.HarvestedPairsGood | parsing-functions.js:119-145 | a callback that yields only well-formed pairs writes only well-formed pairs |
| Attributes.StoredAllGood | parsing-functions.js:128-129 | writing only well-formed pairs gives a well-formed object |
| Attributes.BlockAttributes | parsing-functions.js:117-145 | every name and value tier 1 writes is trimmed and non-empty, and no name is `__proto__` |
| Attributes.SectionAttributes | parsing-functions.js:160-177 | the same holds for tier 2, which writes nothing without a section |
| Attributes.StructuralAttributes | parsing-functions.js:180-238 | the same holds for tier 3 |
| Attributes.ProductAttributes | parsing-functions.js:107-246 | every name and value in the result is trimmed and non-empty and no name is `__proto__`; with a characteristics block the result is tier 1's alone |
| Attributes.BlockDecides | parsing-functions.js:113-145 | with a characteristics block, a name is in the result exactly when one of its rows yields it |
| Attributes.EmptyBlockIsFinal | parsing-functions.js:115-146 | a block whose rows yield nothing leaves the result empty |
| Attributes.BlockNamesLoseTheirColon | parsing-functions.js:125 | names from the block never end in a colon |
| Attributes.BlockLastWriteWins | parsing-functions.js:129 | within the block a later row with the same name overwrites an earlier one |
| Attributes.SectionWins | parsing-functions.js:180 | without a block, a section that writes anything is the result: tier 3 does not run |
| Attributes.SectionDecides | parsing-functions.js:160-180 | without a block, once a section item yields a name, the result is the section's object, and holds a name exactly when an item yields it |
| Attributes.SectionYieldsNothingIff | parsing-functions.js:160-180 | the section yields nothing exactly when it writes nothing |
| Attributes.StructureIsFallback | parsing-functions.js:180-238 | without a block and with nothing from the section, the result is what tier 3 writes |
| Attributes.StructureDecides | parsing-functions.js:180-238 | then a name is in the result exactly when it is not `__proto__` and some tier-3 element writes a pair with that name |
| Attributes.WritesIff | parsing-functions.js:232 | a name is written exactly when some written pair carries it |
| Attributes.SpecificationsNeverInStructure | parsing-functions.js:113-182 | without a block, no tier-3 element carries the `specifications` class |
| Attributes.CapitalHeadingExample | parsing-functions.js:153-154 | the heading `ХАРАКТЕРИСТИКИ` announces characteristics |
| Attributes.ColonItemExample | parsing-functions.js:165-175 | the item `Цвет: Белый` yields the pair `Цвет`, `Белый` |
| Attributes.DefinitionExample | parsing-functions.js:189-199 | `dt` `Материал` before `dd` `Керамика` yields that pair |
| Attributes.TableRowExample | parsing-functions.js:207-215 | a table row whose first two cells read ` Вес ` and `2 кг` yields `Вес`, `2 кг` |
| Attributes.FindAttributesSection | parsing-functions.js:149-158 | the heading loop with its `break` returns what `FindSection` states |
| Attributes.AssignContainer | parsing-functions.js:186-236 | one tier-3 element writes exactly its container pairs |
| Attributes.AssignStructural | parsing-functions.js:182-237 | the tier-3 loop writes exactly the structural pairs, element after element |
| Attributes.GetProductAttributes | parsing-functions.js:107-246 | the extractor returns its last-write-wins object, as the lemmas above characterise it |

## Left out

- The `try`/`catch` blocks with `console.error` (lines 96-99, 242-245): the model has no failure, because every query and text operation is total on the tree, so the catch branches are unreachable.
- The usage comments at lines 248-256: they are not code.
- HTML parsing, rendering and the CSS selector engine: the page is given as a tree, and each selector list is written out as a predicate.
- `getAttribute` returning `null`: it is merged with `""`, since the code only tests the value for truth.
- UTF-16: strings are sequences of characters, not of UTF-16 code units. This matters only outside the Basic Multilingual Plane, which none of the matched words uses.
- Text.ToLower: covers the ASCII and Cyrillic letters only, which is exact for the three heading keywords but not for the whole of Unicode.
- Label.FoldLabelChar: exact only for the letters of the two label words, which are all the characters it is compared against.
- The enumeration order of the result object's keys: the object is a map, which has no order. Last-write-wins and the key set are modelled.
- Articles.ThreeCardsExample: stated over a page whose query results are given. No whole concrete page is evaluated, because evaluating concrete trees and regular expressions is beyond what the verifier does cheaply.
