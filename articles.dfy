/** `getProductArticles`: the article numbers (SKUs) of the products on a
    catalogue page, gathered in three tiers and de-duplicated.

    Tier 1 reads the product cards (`.product-card`, `.product-item`,
    `[data-product-id]`): a card's id attribute, else its article element,
    else a label in its text. Tier 2 runs only when there is no product card
    at all, and reads the looser cards (`article`, `.catalog-item`, `.item`,
    `[itemtype*="Product"]`) the same way minus the id. Tier 3 runs only
    when the first tier that ran produced nothing, and scans the text of
    every element that mentions an article. */
module Articles {
  import opened Util
  import opened Dom
  import opened Text
  import opened Label

  /** `.product-card, .product-item, [data-product-id]`. */
  predicate IsProductCard(n: Node)
    ensures IsProductCard(n) ==> n.Element?
  {
    HasClass(n, "product-card") || HasClass(n, "product-item") || HasAttr(n, "data-product-id")
  }

  /** `[itemtype*="Product"]` asks for the attribute's value to contain the word. */
  predicate IsPossibleCard(n: Node)
    ensures IsPossibleCard(n) ==> n.Element?
  {
    || IsTag(n, "article") || HasClass(n, "catalog-item") || HasClass(n, "item")
    || (HasAttr(n, "itemtype") && Contains(n.attrs["itemtype"], "Product"))
  }

  /** `[data-article], [data-sku], .article, .sku`. */
  predicate IsArticleElement(n: Node)
    ensures IsArticleElement(n) ==> n.Element?
  {
    HasAttr(n, "data-article") || HasAttr(n, "data-sku") || HasClass(n, "article") || HasClass(n, "sku")
  }

  /** `a || b` on strings: the empty string is the only falsy one. */
  function Or(a: string, b: string): (r: string)
    ensures a != [] ==> r == a
    ensures a == [] ==> r == b
  {
    if a != [] then a else b
  }

  /** The guard `if (x)` on a string, turned into an optional value. */
  function NonEmpty(s: string): (r: Option<string>)
    ensures r.Some? <==> s != []
    ensures r.Some? ==> r.value == s
  {
    if s == [] then None else Some(s)
  }

  /** What an article element carries: `data-article`, else `data-sku`,
      else its trimmed text. */
  function ElementArticle(e: Node): (r: string)
    ensures r == [] <==> Attr(e, "data-article") == [] && Attr(e, "data-sku") == [] && Trim(TextContent(e)) == []
    ensures r != [] ==> r == Attr(e, "data-article") || r == Attr(e, "data-sku") || r == Trim(TextContent(e))
  {
    Or(Attr(e, "data-article"), Or(Attr(e, "data-sku"), Trim(TextContent(e))))
  }

  /** A card's article found in its body: its first article element, when
      it has one, decides alone, even when that element carries nothing;
      only a card without any looks for a label in its text. */
  function CardBodyArticle(card: Node): (r: Option<string>)
    ensures r.Some? ==> r.value != []
  {
    match QueryFirst(card, IsArticleElement)
    case Some(e) => NonEmpty(ElementArticle(e))
    case None => MatchLabel(TextContent(card))
  }

  /** The id attributes a product card is identified by, in priority order. */
  function CardId(card: Node): (r: string)
    ensures r == [] <==> Attr(card, "data-product-id") == [] && Attr(card, "data-id") == [] && Attr(card, "id") == []
    ensures r != [] ==> r == Attr(card, "data-product-id") || r == Attr(card, "data-id") || r == Attr(card, "id")
  {
    Or(Attr(card, "data-product-id"), Or(Attr(card, "data-id"), Attr(card, "id")))
  }

  /** What one product card contributes. */
  function ProductCardArticle(card: Located): (r: Option<string>)
    ensures r.Some? ==> r.value != []
  {
    var id := CardId(card.node);
    if id != [] then Some(id) else CardBodyArticle(card.node)
  }

  /** What one looser card contributes: no id is consulted. */
  function PossibleCardArticle(card: Located): (r: Option<string>)
    ensures r.Some? ==> r.value != []
  {
    CardBodyArticle(card.node)
  }

  /** The case-sensitive pre-check of the document scan. */
  predicate MentionsArticle(text: string)
    ensures MentionsArticle(text) <==>
              || (exists i :: OccursAt(text, "артикул", i))
              || (exists i :: OccursAt(text, "Артикул", i))
              || (exists i :: OccursAt(text, "арт.", i))
  {
    ContainsIff(text, "артикул");
    ContainsIff(text, "Артикул");
    ContainsIff(text, "арт.");
    Contains(text, "артикул") || Contains(text, "Артикул") || Contains(text, "арт.")
  }

  /** What one element contributes to the document scan. */
  function ScanArticle(element: Located): (r: Option<string>)
    ensures r.Some? ==> r.value != []
    ensures r.Some? ==> MentionsArticle(TextContent(element.node))
    ensures MentionsArticle(TextContent(element.node)) ==> r == MatchLabel(TextContent(element.node))
  {
    var text := TextContent(element.node);
    if MentionsArticle(text) then MatchLabel(text) else None
  }

  /** A callback that never yields an empty string leaves none behind. */
  lemma HarvestedNonEmpty(xs: seq<Located>, f: Located -> Option<string>)
    requires forall x :: f(x).Some? ==> f(x).value != []
    ensures forall i :: 0 <= i < |Harvest(xs, f)| ==> Harvest(xs, f)[i] != []
  {
    forall i | 0 <= i < |Harvest(xs, f)|
      ensures Harvest(xs, f)[i] != []
    {
      assert Harvest(xs, f)[i] in Harvest(xs, f);
    }
  }

  /** Tiers 1 and 2: the articles of the product cards or, when there is no
      product card, of the looser cards. */
  function CardPass(doc: Node): (r: seq<string>)
    ensures forall i :: 0 <= i < |r| ==> r[i] != []
  {
    var productCards := QueryAll(doc, IsProductCard);
    if |productCards| == 0 then
      HarvestedNonEmpty(QueryAll(doc, IsPossibleCard), PossibleCardArticle);
      Harvest(QueryAll(doc, IsPossibleCard), PossibleCardArticle)
    else
      HarvestedNonEmpty(productCards, ProductCardArticle);
      Harvest(productCards, ProductCardArticle)
  }

  /** The list before de-duplication: the card pass or, when that found
      nothing, the document scan. */
  function Collected(doc: Node): (r: seq<string>)
    ensures forall i :: 0 <= i < |r| ==> r[i] != []
    ensures CardPass(doc) != [] ==> r == CardPass(doc)
  {
    var articles := CardPass(doc);
    if |articles| == 0 then
      HarvestedNonEmpty(QueryAll(doc, IsElement), ScanArticle);
      Harvest(QueryAll(doc, IsElement), ScanArticle)
    else articles
  }

  /** The value `getProductArticles` returns. */
  function ProductArticles(doc: Node): (r: seq<string>)
    ensures NoDuplicates(r)
    ensures forall x :: x in r <==> x in Collected(doc)
  {
    Dedup(Collected(doc))
  }

  // ---- What the extractor promises ----

  /** No article is empty. */
  lemma ArticlesNonEmpty(doc: Node, x: string)
    requires x in ProductArticles(doc)
    ensures x != []
  {
    assert x in Collected(doc);
  }

  /** The list follows the order in which the articles were first found. */
  lemma ArticlesInFirstFoundOrder(doc: Node, i: nat, j: nat)
    requires i < j < |ProductArticles(doc)|
    ensures FirstIndex(Collected(doc), ProductArticles(doc)[i]) < FirstIndex(Collected(doc), ProductArticles(doc)[j])
  {
    var c := Collected(doc);
    assert ProductArticles(doc) == Dedup(c);
    DedupFirstOccurrenceOrder(c, i, j);
  }

  /** Once one product card yields an article, the result holds exactly the
      articles the product cards yield: neither the looser cards nor the
      document scan is consulted. */
  lemma ProductCardsDecide(doc: Node, k: nat, x: string)
    requires k < |QueryAll(doc, IsProductCard)|
    requires ProductCardArticle(QueryAll(doc, IsProductCard)[k]).Some?
    ensures x in ProductArticles(doc) <==>
              exists i :: 0 <= i < |QueryAll(doc, IsProductCard)| && ProductCardArticle(QueryAll(doc, IsProductCard)[i]) == Some(x)
  {
    var cards := QueryAll(doc, IsProductCard);
    assert ProductCardArticle(cards[k]).value in CardPass(doc);
  }

  /** The looser cards are read only when the page has no product card at
      all; then, once one of them yields an article, the result holds
      exactly what they yield. */
  lemma PossibleCardsDecide(doc: Node, k: nat, x: string)
    requires |QueryAll(doc, IsProductCard)| == 0
    requires k < |QueryAll(doc, IsPossibleCard)|
    requires PossibleCardArticle(QueryAll(doc, IsPossibleCard)[k]).Some?
    ensures x in ProductArticles(doc) <==>
              exists i :: 0 <= i < |QueryAll(doc, IsPossibleCard)| && PossibleCardArticle(QueryAll(doc, IsPossibleCard)[i]) == Some(x)
  {
    var cards := QueryAll(doc, IsPossibleCard);
    assert PossibleCardArticle(cards[k]).value in CardPass(doc);
  }

  /** The cards that were read yielded nothing: product cards that all came
      up empty, or, when there are none, looser cards that all did. */
  ghost predicate CardsYieldNothing(doc: Node) {
    var productCards := QueryAll(doc, IsProductCard);
    var possibleCards := QueryAll(doc, IsPossibleCard);
    if |productCards| == 0 then forall i :: 0 <= i < |possibleCards| ==> PossibleCardArticle(possibleCards[i]).None?
    else forall i :: 0 <= i < |productCards| ==> ProductCardArticle(productCards[i]).None?
  }

  /** When the cards that were read yield nothing, the result holds exactly
      what the document scan finds, even when product cards exist and the
      looser cards would have yielded something. */
  lemma DocumentScanDecides(doc: Node, x: string)
    requires CardsYieldNothing(doc)
    ensures x in ProductArticles(doc) <==>
              exists i :: 0 <= i < |QueryAll(doc, IsElement)| && ScanArticle(QueryAll(doc, IsElement)[i]) == Some(x)
  {
    CardPassEmptyIff(doc);
  }

  /** The result is empty exactly when the cards that were read and the
      document scan all come up empty. */
  lemma NoArticlesIff(doc: Node)
    ensures ProductArticles(doc) == [] <==>
              CardsYieldNothing(doc)
              && forall i :: 0 <= i < |QueryAll(doc, IsElement)| ==> ScanArticle(QueryAll(doc, IsElement)[i]).None?
  {
    CardPassEmptyIff(doc);
    HarvestEmpty(QueryAll(doc, IsElement), ScanArticle);
    DedupEmptyIff(Collected(doc));
  }

  lemma CardPassEmptyIff(doc: Node)
    ensures |CardPass(doc)| == 0 <==> CardsYieldNothing(doc)
  {
    var productCards := QueryAll(doc, IsProductCard);
    if |productCards| == 0 {
      HarvestEmpty(QueryAll(doc, IsPossibleCard), PossibleCardArticle);
    } else {
      HarvestEmpty(productCards, ProductCardArticle);
    }
  }

  /** A card whose id attributes are all empty is read through its body; a
      non-empty id wins over anything in the body, and `data-product-id`
      over `data-id` over `id`. */
  lemma ProductCardPriority(card: Located)
    ensures Attr(card.node, "data-product-id") != [] ==> ProductCardArticle(card) == Some(Attr(card.node, "data-product-id"))
    ensures Attr(card.node, "data-product-id") == [] && Attr(card.node, "data-id") != [] ==>
              ProductCardArticle(card) == Some(Attr(card.node, "data-id"))
    ensures Attr(card.node, "data-product-id") == [] && Attr(card.node, "data-id") == [] && Attr(card.node, "id") != [] ==>
              ProductCardArticle(card) == Some(Attr(card.node, "id"))
    ensures CardId(card.node) == [] ==> ProductCardArticle(card) == PossibleCardArticle(card)
  {
  }

  /** The first article element of a card is read through the chain
      `data-article`, then `data-sku`, then its trimmed text; the first
      non-empty one is the card's article. */
  lemma ArticleElementChain(card: Node, e: Node)
    requires QueryFirst(card, IsArticleElement) == Some(e)
    ensures Attr(e, "data-article") != [] ==> CardBodyArticle(card) == Some(Attr(e, "data-article"))
    ensures Attr(e, "data-article") == [] && Attr(e, "data-sku") != [] ==> CardBodyArticle(card) == Some(Attr(e, "data-sku"))
    ensures Attr(e, "data-article") == [] && Attr(e, "data-sku") == [] ==> CardBodyArticle(card) == NonEmpty(Trim(TextContent(e)))
  {
  }

  /** Only a card without an article element looks for a label in its text. */
  lemma CardLabelFallback(card: Node)
    requires QueryFirst(card, IsArticleElement).None?
    ensures CardBodyArticle(card) == MatchLabel(TextContent(card))
  {
  }

  /** An article element decides for its card even when it carries
      nothing: the label in the card's text is then not looked for. */
  lemma BlankArticleElementSilencesLabel(card: Node)
    requires QueryFirst(card, IsArticleElement).Some?
    requires ElementArticle(QueryFirst(card, IsArticleElement).value) == []
    ensures CardBodyArticle(card) == None
  {
  }

  /** A character of `sub` that `s` lacks rules out `s.includes(sub)`. */
  lemma {:induction false} MissingCharExcludes(s: string, sub: string, k: nat)
    requires k < |sub| && sub[k] !in s
    ensures !Contains(s, sub)
  {
    forall i | 0 <= i <= |s| - |sub|
      ensures !OccursAt(s, sub, i)
    {
      assert s[i..i + |sub|][k] == s[i + k];
    }
    ContainsIff(s, sub);
  }

  /** The patterns accept a label in capitals. */
  lemma CapitalLabelMatches()
    ensures MatchLabel("АРТИКУЛ: X1") == Some("X1")
  {
    assert "АРТИКУЛ: X1" == "АРТИКУЛ" + ": " + "X1" + "";
    FullLabelCapture("АРТИКУЛ", ": ", "X1", "");
  }

  /** The document scan's pre-check is case-sensitive while the patterns are
      not: a label in capitals, which the patterns accept, is skipped. */
  lemma ScanSkipsCapitalLabel(element: Located)
    requires TextContent(element.node) == "АРТИКУЛ: X1"
    ensures ScanArticle(element) == None
  {
    var text := TextContent(element.node);
    assert 'р' !in text;
    MissingCharExcludes(text, "артикул", 1);
    MissingCharExcludes(text, "Артикул", 1);
    MissingCharExcludes(text, "арт.", 1);
  }

  /** Cards that repeat an id contribute it once, where it was first seen. */
  lemma RepeatedIdsExample()
    ensures Dedup(["101", "102", "101"]) == ["101", "102"]
  {
    var c := ["101", "102", "101"];
    assert c[..2] == ["101", "102"] && c[..2][..1] == ["101"];
    assert c[..2][..1][..0] == [];
    assert Dedup(c[..2][..1]) == ["101"];
    assert "102" != "101";
    assert Dedup(c[..2]) == ["101", "102"];
    assert c[2] in Dedup(c[..2]);
  }

  /** A product card with no id and no article element falls back on the
      label in its text. */
  lemma LabelOnlyCard(card: Located)
    requires CardId(card.node) == []
    requires QueryFirst(card.node, IsArticleElement).None?
    requires TextContent(card.node) == "Артикул: 103"
    ensures ProductCardArticle(card) == Some("103")
  {
    assert "Артикул: 103" == "Артикул" + ": " + "103" + "";
    FullLabelCapture("Артикул", ": ", "103", "");
  }

  /** A product card carrying `data-product-id` is identified by it. */
  lemma IdCard(card: Located, id: string)
    requires Attr(card.node, "data-product-id") == id && id != []
    ensures ProductCardArticle(card) == Some(id)
  {
  }

  /** When the product cards yield `xs`, nothing empty, that is the answer
      up to de-duplication. */
  lemma CardsDecide(doc: Node, xs: seq<string>)
    requires Harvest(QueryAll(doc, IsProductCard), ProductCardArticle) == xs && xs != []
    ensures Collected(doc) == xs
  {
  }

  lemma ThreeDistinct()
    ensures Dedup(["101", "102", "103"]) == ["101", "102", "103"]
  {
    DedupOfDistinct(["101", "102", "103"]);
  }

  /** Three product cards: two identified by `data-product-id`, the third
      by nothing but a label in its text. */
  lemma ThreeCardsExample(doc: Node, c1: Located, c2: Located, c3: Located)
    requires QueryAll(doc, IsProductCard) == [c1, c2, c3]
    requires Attr(c1.node, "data-product-id") == "101" && Attr(c2.node, "data-product-id") == "102"
    requires Attr(c3.node, "data-product-id") == [] && Attr(c3.node, "data-id") == [] && Attr(c3.node, "id") == []
    requires QueryFirst(c3.node, IsArticleElement).None?
    requires TextContent(c3.node) == "Артикул: 103"
    ensures ProductArticles(doc) == ["101", "102", "103"]
  {
    IdCard(c1, "101");
    IdCard(c2, "102");
    LabelOnlyCard(c3);
    HarvestThree(c1, c2, c3, ProductCardArticle, "101", "102", "103");
    CardsDecide(doc, ["101", "102", "103"]);
    ThreeDistinct();
  }

  /** `getProductArticles()` on the page `doc`: each `forEach` pushes what
      its callback yields, the document scan runs when the card loops pushed
      nothing, and the list is de-duplicated last. */
  method GetProductArticles(doc: Node) returns (result: seq<string>)
    ensures result == ProductArticles(doc)
  {
    var articles: seq<string>;
    var productCards := QueryAll(doc, IsProductCard);
    if |productCards| == 0 {
      var possibleCards := QueryAll(doc, IsPossibleCard);
      articles := PushEach(possibleCards, PossibleCardArticle);
    } else {
      articles := PushEach(productCards, ProductCardArticle);
    }
    if |articles| == 0 {
      var allElements := QueryAll(doc, IsElement);
      articles := PushEach(allElements, ScanArticle);
    }
    result := Dedup(articles);
  }
}
