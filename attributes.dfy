/** `getProductAttributes`: the name/value characteristics of the product
    on a product page, gathered into a plain object in three tiers.

    Tier 1 reads the rows of the first characteristics block. Only when
    there is no such block, tier 2 reads the items of the element right
    after the first heading that announces characteristics, and tier 3 runs
    when the object is still empty, reading definition lists, tables and
    other key/value containers anywhere on the page. */
module Attributes {
  import opened Util
  import opened Dom
  import opened Text

  type Pair = (string, string)

  // ---- The object the pairs are written into ----

  /** On a plain object, `obj["__proto__"] = v` calls the prototype setter,
      which ignores a string value: the object is left as it was. */
  const ProtoKey: string := "__proto__"

  /** `obj[k] = v` on a plain object of strings. */
  function Put(m: map<string, string>, k: string, v: string): (r: map<string, string>)
    ensures k == ProtoKey ==> r == m
    ensures k != ProtoKey ==> k in r && r[k] == v
    ensures forall j :: j != k ==> (j in r <==> j in m)
    ensures forall j :: j != k && j in r ==> r[j] == m[j]
  {
    if k == ProtoKey then m else m[k := v]
  }

  /** `obj[k] = v` for each pair of `ps` in order, starting from `m`. */
  function StoreAll(m: map<string, string>, ps: seq<Pair>): (r: map<string, string>)
    ensures ProtoKey !in m ==> ProtoKey !in r
  {
    if ps == [] then m
    else Put(StoreAll(m, ps[..|ps| - 1]), ps[|ps| - 1].0, ps[|ps| - 1].1)
  }

  /** Writing into a plain object is writing into a dictionary, except that
      the `__proto__` key never lands. */
  lemma {:induction false} StoreAllIsAssign(m: map<string, string>, ps: seq<Pair>)
    requires ProtoKey !in m
    ensures StoreAll(m, ps) == Assign(m, ps) - {ProtoKey}
  {
    if ps != [] {
      StoreAllIsAssign(m, ps[..|ps| - 1]);
    }
  }

  lemma {:induction false} StoreAllAppend(m: map<string, string>, a: seq<Pair>, b: seq<Pair>)
    ensures StoreAll(m, a + b) == StoreAll(StoreAll(m, a), b)
  {
    if b != [] {
      assert (a + b)[..|a + b| - 1] == a + b[..|b| - 1];
      StoreAllAppend(m, a, b[..|b| - 1]);
    } else {
      assert a + b == a;
    }
  }

  lemma StoreAllExtend(m: map<string, string>, ps: seq<Pair>, p: Pair)
    ensures StoreAll(m, ps + [p]) == Put(StoreAll(m, ps), p.0, p.1)
  {
    assert (ps + [p])[..|ps|] == ps;
  }

  /** Some pair of `ps` is written under `k`. */
  ghost predicate Writes(ps: seq<Pair>, k: string) {
    exists i :: 0 <= i < |ps| && ps[i].0 == k
  }

  /** The object holds exactly the keys written, `__proto__` aside, and
      each value it holds is one written under that key. */
  lemma StoreAllEntries(ps: seq<Pair>, k: string)
    ensures k in StoreAll(map[], ps) <==> k != ProtoKey && Writes(ps, k)
    ensures k in StoreAll(map[], ps) ==> (k, StoreAll(map[], ps)[k]) in ps
  {
    StoreAllIsAssign(map[], ps);
    if k in StoreAll(map[], ps) {
      AssignProvenance(map[], ps, k);
    }
  }

  lemma StoreAllLastWriteWins(ps: seq<Pair>, i: nat)
    requires i < |ps| && ps[i].0 != ProtoKey
    requires forall j :: i < j < |ps| ==> ps[j].0 != ps[i].0
    ensures ps[i].0 in StoreAll(map[], ps) && StoreAll(map[], ps)[ps[i].0] == ps[i].1
  {
    StoreAllIsAssign(map[], ps);
    AssignLastWriteWins(map[], ps, i);
  }

  /** `xs.forEach(x => { ...; if (name && value) obj[name] = value; })`,
      the callback's pair given by `f`. */
  method AssignEach(attributes: map<string, string>, xs: seq<Located>, f: Located -> Option<Pair>)
    returns (out: map<string, string>)
    ensures out == StoreAll(attributes, Harvest(xs, f))
  {
    out := attributes;
    var i := 0;
    while i < |xs|
      invariant i <= |xs|
      invariant out == StoreAll(attributes, Harvest(xs[..i], f))
    {
      ghost var h := Harvest(xs[..i], f);
      HarvestStep(xs, i, f);
      var pair := f(xs[i]);
      if pair.Some? {
        StoreAllExtend(attributes, h, pair.value);
        out := Put(out, pair.value.0, pair.value.1);
      } else {
        assert h + [] == h;
      }
      i := i + 1;
    }
    assert xs[..i] == xs;
  }

  // ---- Selectors ----

  predicate IsSpecBlock(n: Node)
    ensures IsSpecBlock(n) ==> n.Element?
  {
    || HasClass(n, "product-attributes") || HasClass(n, "product-specs")
    || HasClass(n, "specifications") || HasClass(n, "characteristics")
    || Attr(n, "data-tab") == "characteristics"
  }

  predicate IsSpecRow(n: Node)
    ensures IsSpecRow(n) ==> n.Element?
  {
    IsTag(n, "tr") || HasClass(n, "attribute-item") || HasClass(n, "spec-item") || IsTag(n, "li")
  }

  predicate IsNameCell(n: Node)
    ensures IsNameCell(n) ==> n.Element?
  {
    || HasClass(n, "attribute-name") || HasClass(n, "spec-name") || HasClass(n, "name")
    || IsTag(n, "th") || IsTag(n, "dt")
  }

  predicate IsValueCell(n: Node)
    ensures IsValueCell(n) ==> n.Element?
  {
    || HasClass(n, "attribute-value") || HasClass(n, "spec-value") || HasClass(n, "value")
    || IsTag(n, "td") || IsTag(n, "dd")
  }

  predicate IsHeading(n: Node)
    ensures IsHeading(n) ==> n.Element?
  {
    || IsTag(n, "h1") || IsTag(n, "h2") || IsTag(n, "h3")
    || IsTag(n, "h4") || IsTag(n, "h5") || IsTag(n, "h6")
  }

  /** A heading whose lower-cased text names a characteristics section. */
  predicate IsAttributesHeading(n: Node) {
    var headingText := ToLower(TextContent(n));
    Contains(headingText, "характеристики") || Contains(headingText, "спецификации") || Contains(headingText, "параметры")
  }

  /** A heading qualifies exactly when one of the three words occurs
      somewhere in its lower-cased text. */
  lemma AttributesHeadingIff(n: Node, lower: string)
    requires lower == ToLower(TextContent(n))
    ensures IsAttributesHeading(n) <==>
              || (exists i :: OccursAt(lower, "характеристики", i))
              || (exists i :: OccursAt(lower, "спецификации", i))
              || (exists i :: OccursAt(lower, "параметры", i))
  {
    ContainsIff(lower, "характеристики");
    ContainsIff(lower, "спецификации");
    ContainsIff(lower, "параметры");
  }

  predicate IsSectionItem(n: Node)
    ensures IsSectionItem(n) ==> n.Element?
  {
    IsTag(n, "li") || IsTag(n, "tr") || HasClass(n, "item")
  }

  predicate IsStructural(n: Node)
    ensures IsStructural(n) ==> n.Element?
  {
    IsTag(n, "dl") || IsTag(n, "table") || HasClass(n, "attributes") || HasClass(n, "specifications")
  }

  predicate IsDt(n: Node)
    ensures IsDt(n) ==> n.Element?
  {
    IsTag(n, "dt")
  }

  predicate IsTr(n: Node)
    ensures IsTr(n) ==> n.Element?
  {
    IsTag(n, "tr")
  }

  predicate IsCell(n: Node)
    ensures IsCell(n) ==> n.Element?
  {
    IsTag(n, "td") || IsTag(n, "th")
  }

  predicate IsContainerItem(n: Node)
    ensures IsContainerItem(n) ==> n.Element?
  {
    HasClass(n, "item") || IsTag(n, "li") || HasClass(n, "row")
  }

  predicate IsItemName(n: Node)
    ensures IsItemName(n) ==> n.Element?
  {
    HasClass(n, "name") || HasClass(n, "label") || HasClass(n, "key")
  }

  predicate IsItemValue(n: Node)
    ensures IsItemValue(n) ==> n.Element?
  {
    HasClass(n, "value") || HasClass(n, "data")
  }

  // ---- What one row contributes ----

  /** Both halves of a stored pair are non-empty and trimmed. */
  predicate GoodPair(p: Pair) {
    p.0 != [] && IsTrimmed(p.0) && p.1 != [] && IsTrimmed(p.1)
  }

  /** The guard `if (name && value)`. */
  function BothPresent(name: string, value: string): (r: Option<Pair>)
    ensures r.Some? <==> name != [] && value != []
    ensures r.Some? ==> r.value == (name, value)
  {
    if name != [] && value != [] then Some((name, value)) else None
  }

  /** A name cell's text, trimmed and rid of its trailing colons and white
      space, is still trimmed and does not end in a colon. */
  lemma StrippedNameTrimmed(s: string)
    ensures var r := StripTrailingSeparators(Trim(s));
            IsTrimmed(r) && (r != [] ==> r[|r| - 1] != ':')
  {
    var t := Trim(s);
    var r := StripTrailingSeparators(t);
    if r != [] {
      assert r[0] == t[0];
    }
  }

  /** A row of the characteristics block: its first name cell and first
      value cell when it has both, else its text split at the first colon. */
  function SpecRowPair(row: Located): (r: Option<Pair>)
    ensures r.Some? ==> GoodPair(r.value)
    ensures r.Some? ==> r.value.0[|r.value.0| - 1] != ':'
  {
    var nameElement := QueryFirst(row.node, IsNameCell);
    var valueElement := QueryFirst(row.node, IsValueCell);
    if nameElement.Some? && valueElement.Some? then
      var name := StripTrailingSeparators(Trim(TextContent(nameElement.value)));
      StrippedNameTrimmed(TextContent(nameElement.value));
      BothPresent(name, Trim(TextContent(valueElement.value)))
    else
      SplitAtColon(TextContent(row.node))
  }

  /** A row with both a name cell and a value cell is read through them
      alone: it yields the stripped name and the trimmed value, or nothing
      when either is empty, and its text is never split at a colon. */
  lemma SpecRowCells(row: Located)
    requires QueryFirst(row.node, IsNameCell).Some? && QueryFirst(row.node, IsValueCell).Some?
    ensures var name := StripTrailingSeparators(Trim(TextContent(QueryFirst(row.node, IsNameCell).value)));
            var value := Trim(TextContent(QueryFirst(row.node, IsValueCell).value));
            && (SpecRowPair(row).Some? <==> name != [] && value != [])
            && (SpecRowPair(row).Some? ==> SpecRowPair(row).value == (name, value))
  {
  }

  /** A row that has both cells but an empty value is skipped, even when
      its text holds a colon. */
  lemma SpecRowBlankValueSkipped(row: Located)
    requires QueryFirst(row.node, IsNameCell).Some? && QueryFirst(row.node, IsValueCell).Some?
    requires Trim(TextContent(QueryFirst(row.node, IsValueCell).value)) == []
    ensures SpecRowPair(row) == None
  {
    SpecRowCells(row);
  }

  /** Only a row without a name cell or without a value cell is split at
      its first colon. */
  lemma SpecRowColonFallback(row: Located)
    requires QueryFirst(row.node, IsNameCell).None? || QueryFirst(row.node, IsValueCell).None?
    ensures SpecRowPair(row) == SplitAtColon(TextContent(row.node))
  {
  }

  /** An item of the section after a characteristics heading. */
  function SectionItemPair(item: Located): (r: Option<Pair>)
    ensures r.Some? ==> GoodPair(r.value)
  {
    SplitAtColon(TextContent(item.node))
  }

  /** A `dt` whose next element sibling is a `dd`. */
  function DefinitionPair(dt: Located): (r: Option<Pair>)
    ensures r.Some? ==> GoodPair(r.value)
    ensures r.Some? ==> dt.next.Some? && IsTag(dt.next.value, "dd")
    ensures r.Some? ==> r.value == (Trim(TextContent(dt.node)), Trim(TextContent(dt.next.value)))
    ensures r.Some? <==> dt.next.Some? && IsTag(dt.next.value, "dd")
                         && Trim(TextContent(dt.node)) != [] && Trim(TextContent(dt.next.value)) != []
  {
    match dt.next
    case Some(dd) =>
      if IsTag(dd, "dd") then BothPresent(Trim(TextContent(dt.node)), Trim(TextContent(dd))) else None
    case None => None
  }

  /** A table row with at least two cells: the first two, in document order. */
  function TableRowPair(row: Located): (r: Option<Pair>)
    ensures r.Some? ==> GoodPair(r.value)
    ensures |QueryAll(row.node, IsCell)| < 2 ==> r.None?
    ensures r.Some? ==> r.value == (Trim(TextContent(QueryAll(row.node, IsCell)[0].node)),
                                    Trim(TextContent(QueryAll(row.node, IsCell)[1].node)))
    ensures |QueryAll(row.node, IsCell)| >= 2 ==>
              (r.Some? <==> Trim(TextContent(QueryAll(row.node, IsCell)[0].node)) != []
                            && Trim(TextContent(QueryAll(row.node, IsCell)[1].node)) != [])
  {
    var cells := QueryAll(row.node, IsCell);
    if |cells| >= 2 then BothPresent(Trim(TextContent(cells[0].node)), Trim(TextContent(cells[1].node))) else None
  }

  /** An item of another container, with a name and a value element. */
  function ContainerItemPair(item: Located): (r: Option<Pair>)
    ensures r.Some? ==> GoodPair(r.value)
    ensures r.Some? ==> QueryFirst(item.node, IsItemName).Some? && QueryFirst(item.node, IsItemValue).Some?
    ensures r.Some? ==> r.value == (Trim(TextContent(QueryFirst(item.node, IsItemName).value)),
                                    Trim(TextContent(QueryFirst(item.node, IsItemValue).value)))
    ensures r.Some? <==> && QueryFirst(item.node, IsItemName).Some? && QueryFirst(item.node, IsItemValue).Some?
                         && Trim(TextContent(QueryFirst(item.node, IsItemName).value)) != []
                         && Trim(TextContent(QueryFirst(item.node, IsItemValue).value)) != []
  {
    var nameElement := QueryFirst(item.node, IsItemName);
    var valueElement := QueryFirst(item.node, IsItemValue);
    if nameElement.Some? && valueElement.Some? then
      BothPresent(Trim(TextContent(nameElement.value)), Trim(TextContent(valueElement.value)))
    else None
  }

  /** What one element of tier 3 writes, in order: a `dl` by its `dt`s, a
      `table` by its rows, anything else by its items. */
  function ContainerPairs(element: Located): (r: seq<Pair>)
    ensures forall i :: 0 <= i < |r| ==> GoodPair(r[i])
    ensures IsTag(element.node, "dl") ==>
              forall p :: p in r <==> exists i :: 0 <= i < |QueryAll(element.node, IsDt)|
                                                 && DefinitionPair(QueryAll(element.node, IsDt)[i]) == Some(p)
    ensures !IsTag(element.node, "dl") && IsTag(element.node, "table") ==>
              forall p :: p in r <==> exists i :: 0 <= i < |QueryAll(element.node, IsTr)|
                                                 && TableRowPair(QueryAll(element.node, IsTr)[i]) == Some(p)
    ensures !IsTag(element.node, "dl") && !IsTag(element.node, "table") ==>
              forall p :: p in r <==> exists i :: 0 <= i < |QueryAll(element.node, IsContainerItem)|
                                                 && ContainerItemPair(QueryAll(element.node, IsContainerItem)[i]) == Some(p)
  {
    var e := element.node;
    var r :=
      if IsTag(e, "dl") then Harvest(QueryAll(e, IsDt), DefinitionPair)
      else if IsTag(e, "table") then Harvest(QueryAll(e, IsTr), TableRowPair)
      else Harvest(QueryAll(e, IsContainerItem), ContainerItemPair);
    assert forall i :: 0 <= i < |r| ==> r[i] in r;
    r
  }

  /** What tier 3 writes, element after element. */
  function StructuralPairs(es: seq<Located>): (r: seq<Pair>)
    ensures forall i :: 0 <= i < |r| ==> GoodPair(r[i])
    ensures forall p :: p in r <==> exists i :: 0 <= i < |es| && p in ContainerPairs(es[i])
  {
    var r := Gather(es, ContainerPairs);
    assert forall i :: 0 <= i < |r| ==> r[i] in r;
    r
  }

  // ---- The three tiers ----

  /** The element right after the first characteristics heading; none when
      no heading qualifies or when the first that does has no next element. */
  function FindSection(headings: seq<Located>): (r: Option<Node>)
    ensures (forall i :: 0 <= i < |headings| ==> !IsAttributesHeading(headings[i].node)) ==> r.None?
    ensures forall i :: 0 <= i < |headings| && IsAttributesHeading(headings[i].node)
                        && (forall j :: 0 <= j < i ==> !IsAttributesHeading(headings[j].node))
                        ==> r == headings[i].next
  {
    if headings == [] then None
    else if IsAttributesHeading(headings[0].node) then headings[0].next
    else
      var r := FindSection(headings[1..]);
      assert forall i :: 1 <= i < |headings| ==> headings[1..][i - 1] == headings[i];
      r
  }

  /** Every name and every value in the object is non-empty and trimmed,
      and no name is `__proto__`. */
  ghost predicate WellFormed(m: map<string, string>) {
    forall k :: k in m ==> k != ProtoKey && GoodPair((k, m[k]))
  }

  lemma StoredAllGood(ps: seq<Pair>)
    requires forall i :: 0 <= i < |ps| ==> GoodPair(ps[i])
    ensures WellFormed(StoreAll(map[], ps))
  {
    forall k | k in StoreAll(map[], ps)
      ensures k != ProtoKey && GoodPair((k, StoreAll(map[], ps)[k]))
    {
      StoredPairsGood(ps, k);
    }
  }

  /** Tier 1: what the rows of the characteristics block write. */
  function BlockAttributes(block: Node): (r: map<string, string>)
    ensures WellFormed(r)
  {
    HarvestedPairsGood(QueryAll(block, IsSpecRow), SpecRowPair);
    StoredAllGood(Harvest(QueryAll(block, IsSpecRow), SpecRowPair));
    StoreAll(map[], Harvest(QueryAll(block, IsSpecRow), SpecRowPair))
  }

  /** Tier 2: what the items of the section write; nothing without a section. */
  function SectionAttributes(doc: Node): (r: map<string, string>)
    ensures WellFormed(r)
    ensures FindSection(QueryAll(doc, IsHeading)).None? ==> r == map[]
  {
    match FindSection(QueryAll(doc, IsHeading))
    case Some(section) =>
      HarvestedPairsGood(QueryAll(section, IsSectionItem), SectionItemPair);
      StoredAllGood(Harvest(QueryAll(section, IsSectionItem), SectionItemPair));
      StoreAll(map[], Harvest(QueryAll(section, IsSectionItem), SectionItemPair))
    case None => map[]
  }

  /** Tier 3: what the containers of the page write. */
  function StructuralAttributes(doc: Node): (r: map<string, string>)
    ensures WellFormed(r)
  {
    StoredAllGood(StructuralPairs(QueryAll(doc, IsStructural)));
    StoreAll(map[], StructuralPairs(QueryAll(doc, IsStructural)))
  }

  /** The object `getProductAttributes` returns. */
  function ProductAttributes(doc: Node): (r: map<string, string>)
    ensures WellFormed(r)
    ensures QueryFirst(doc, IsSpecBlock).Some? ==> r == BlockAttributes(QueryFirst(doc, IsSpecBlock).value)
  {
    match QueryFirst(doc, IsSpecBlock)
    case Some(block) => BlockAttributes(block)
    case None =>
      var m := SectionAttributes(doc);
      if |m| == 0 then StructuralAttributes(doc) else m
  }

  // ---- What the extractor promises ----

  /** The names a callback yields, position by position. */
  ghost predicate YieldsKey(xs: seq<Located>, f: Located -> Option<Pair>, k: string) {
    exists j :: 0 <= j < |xs| && f(xs[j]).Some? && f(xs[j]).value.0 == k
  }

  lemma HarvestedKeyYielded(xs: seq<Located>, f: Located -> Option<Pair>, i: nat)
    requires i < |Harvest(xs, f)|
    ensures YieldsKey(xs, f, Harvest(xs, f)[i].0)
  {
    var ps := Harvest(xs, f);
    assert ps[i] in ps;
    var j :| 0 <= j < |xs| && f(xs[j]) == Some(ps[i]);
  }

  lemma YieldedKeyHarvested(xs: seq<Located>, f: Located -> Option<Pair>, j: nat)
    requires j < |xs| && f(xs[j]).Some?
    ensures exists i :: 0 <= i < |Harvest(xs, f)| && Harvest(xs, f)[i].0 == f(xs[j]).value.0
  {
    var ps := Harvest(xs, f);
    assert f(xs[j]).value in ps;
    var i :| 0 <= i < |ps| && ps[i] == f(xs[j]).value;
  }

  /** After a `forEach` that writes each yielded pair, the object holds a
      key exactly when some element yielded it and it is not `__proto__`. */
  lemma StoredKeysIff(xs: seq<Located>, f: Located -> Option<Pair>, k: string)
    ensures k in StoreAll(map[], Harvest(xs, f)) <==> k != ProtoKey && YieldsKey(xs, f, k)
  {
    var ps := Harvest(xs, f);
    StoreAllEntries(ps, k);
    if k in StoreAll(map[], ps) {
      var i :| 0 <= i < |ps| && ps[i].0 == k;
      HarvestedKeyYielded(xs, f, i);
    }
    if k != ProtoKey && YieldsKey(xs, f, k) {
      var j :| 0 <= j < |xs| && f(xs[j]).Some? && f(xs[j]).value.0 == k;
      YieldedKeyHarvested(xs, f, j);
    }
  }

  lemma StoredPairsGood(ps: seq<Pair>, k: string)
    requires forall i :: 0 <= i < |ps| ==> GoodPair(ps[i])
    requires k in StoreAll(map[], ps)
    ensures k != ProtoKey && GoodPair((k, StoreAll(map[], ps)[k]))
  {
    StoreAllEntries(ps, k);
  }

  lemma HarvestedPairsGood(xs: seq<Located>, f: Located -> Option<Pair>)
    requires forall x :: f(x).Some? ==> GoodPair(f(x).value)
    ensures forall i :: 0 <= i < |Harvest(xs, f)| ==> GoodPair(Harvest(xs, f)[i])
  {
    var ps := Harvest(xs, f);
    assert forall i :: 0 <= i < |ps| ==> ps[i] in ps;
  }

  /** When the page has a characteristics block, its rows alone decide: a
      name is in the result exactly when one of its rows yields it. */
  lemma BlockDecides(doc: Node, block: Node, k: string)
    requires QueryFirst(doc, IsSpecBlock) == Some(block)
    ensures k in ProductAttributes(doc) <==> k != ProtoKey && YieldsKey(QueryAll(block, IsSpecRow), SpecRowPair, k)
  {
    StoredKeysIff(QueryAll(block, IsSpecRow), SpecRowPair, k);
  }

  /** A block whose rows yield nothing leaves the result empty: the
      headings and the page structure are not consulted. */
  lemma EmptyBlockIsFinal(doc: Node, block: Node)
    requires QueryFirst(doc, IsSpecBlock) == Some(block)
    requires forall j :: 0 <= j < |QueryAll(block, IsSpecRow)| ==> SpecRowPair(QueryAll(block, IsSpecRow)[j]).None?
    ensures ProductAttributes(doc) == map[]
  {
    HarvestEmpty(QueryAll(block, IsSpecRow), SpecRowPair);
  }

  /** Names read from the block never end in a colon. */
  lemma BlockNamesLoseTheirColon(doc: Node, block: Node, k: string)
    requires QueryFirst(doc, IsSpecBlock) == Some(block)
    requires k in ProductAttributes(doc)
    ensures k != [] && k[|k| - 1] != ':'
  {
    var rows := QueryAll(block, IsSpecRow);
    StoredKeysIff(rows, SpecRowPair, k);
    var j :| 0 <= j < |rows| && SpecRowPair(rows[j]).Some? && SpecRowPair(rows[j]).value.0 == k;
  }

  /** Within the block, a later row with the same name overwrites an
      earlier one. */
  lemma BlockLastWriteWins(doc: Node, block: Node, i: nat)
    requires QueryFirst(doc, IsSpecBlock) == Some(block)
    requires var ps := Harvest(QueryAll(block, IsSpecRow), SpecRowPair);
             i < |ps| && ps[i].0 != ProtoKey && forall j :: i < j < |ps| ==> ps[j].0 != ps[i].0
    ensures var ps := Harvest(QueryAll(block, IsSpecRow), SpecRowPair);
            ps[i].0 in ProductAttributes(doc) && ProductAttributes(doc)[ps[i].0] == ps[i].1
  {
    StoreAllLastWriteWins(Harvest(QueryAll(block, IsSpecRow), SpecRowPair), i);
  }

  /** Without a block, once an item of the section yields a name, the
      section alone decides and the page structure is not consulted. */
  lemma SectionDecides(doc: Node, section: Node, k: string, k0: string)
    requires QueryFirst(doc, IsSpecBlock).None?
    requires FindSection(QueryAll(doc, IsHeading)) == Some(section)
    requires k0 != ProtoKey && YieldsKey(QueryAll(section, IsSectionItem), SectionItemPair, k0)
    ensures ProductAttributes(doc) == SectionAttributes(doc)
    ensures k in ProductAttributes(doc) <==> k != ProtoKey && YieldsKey(QueryAll(section, IsSectionItem), SectionItemPair, k)
  {
    var items := QueryAll(section, IsSectionItem);
    StoredKeysIff(items, SectionItemPair, k0);
    SectionWins(doc, k0);
    StoredKeysIff(items, SectionItemPair, k);
  }

  /** Without a block, a section that writes anything is the result. */
  lemma SectionWins(doc: Node, k0: string)
    requires QueryFirst(doc, IsSpecBlock).None?
    requires k0 in SectionAttributes(doc)
    ensures ProductAttributes(doc) == SectionAttributes(doc)
  {
  }

  /** No section, or a section none of whose items yields a name. */
  ghost predicate SectionYieldsNothing(doc: Node) {
    match FindSection(QueryAll(doc, IsHeading))
    case None => true
    case Some(section) => forall k :: !(k != ProtoKey && YieldsKey(QueryAll(section, IsSectionItem), SectionItemPair, k))
  }

  lemma SectionYieldsNothingIff(doc: Node)
    ensures SectionYieldsNothing(doc) <==> SectionAttributes(doc) == map[]
  {
    match FindSection(QueryAll(doc, IsHeading))
    case None =>
    case Some(section) =>
      var items := QueryAll(section, IsSectionItem);
      forall k
        ensures k in SectionAttributes(doc) <==> k != ProtoKey && YieldsKey(items, SectionItemPair, k)
      {
        StoredKeysIff(items, SectionItemPair, k);
      }
  }

  /** Without a block and without anything from the section, the page
      structure decides. */
  lemma StructureIsFallback(doc: Node)
    requires QueryFirst(doc, IsSpecBlock).None? && SectionYieldsNothing(doc)
    ensures ProductAttributes(doc) == StructuralAttributes(doc)
  {
    SectionYieldsNothingIff(doc);
  }

  lemma StructureDecides(doc: Node, k: string)
    requires QueryFirst(doc, IsSpecBlock).None? && SectionYieldsNothing(doc)
    ensures k in ProductAttributes(doc) <==> k != ProtoKey && Writes(StructuralPairs(QueryAll(doc, IsStructural)), k)
    ensures k in ProductAttributes(doc) <==>
              k != ProtoKey && exists i, v :: 0 <= i < |QueryAll(doc, IsStructural)|
                                              && (k, v) in ContainerPairs(QueryAll(doc, IsStructural)[i])
  {
    var es := QueryAll(doc, IsStructural);
    StructureIsFallback(doc);
    StoreAllEntries(StructuralPairs(es), k);
    WritesIff(StructuralPairs(es), k);
  }

  /** `Writes` in terms of membership. */
  lemma WritesIff(ps: seq<Pair>, k: string)
    ensures Writes(ps, k) <==> exists v :: (k, v) in ps
  {
    if Writes(ps, k) {
      var i :| 0 <= i < |ps| && ps[i].0 == k;
      assert (k, ps[i].1) == ps[i];
    }
  }

  /** `.specifications` is part of tier 3's selector, but tier 3 only runs
      when no element is a characteristics block, and every
      `.specifications` element is one. */
  lemma SpecificationsNeverInStructure(doc: Node)
    requires QueryFirst(doc, IsSpecBlock).None?
    ensures forall i :: 0 <= i < |QueryAll(doc, IsStructural)| ==> !HasClass(QueryAll(doc, IsStructural)[i].node, "specifications")
  {
    QueryAllEmpty(doc, IsSpecBlock);
    var es := QueryAll(doc, IsStructural);
    forall i | 0 <= i < |es|
      ensures !HasClass(es[i].node, "specifications")
    {
      assert es[i] in Descendants(doc);
    }
  }

  /** Headings are compared in lower case. */
  lemma CapitalHeadingExample(heading: Node)
    requires TextContent(heading) == "ХАРАКТЕРИСТИКИ"
    ensures IsAttributesHeading(heading)
  {
    var lower := ToLower(TextContent(heading));
    assert lower == "характеристики";
    assert lower[..|lower|] == lower;
  }

  lemma ColonItemExample(item: Located)
    requires TextContent(item.node) == "Цвет: Белый"
    ensures SectionItemPair(item) == Some(("Цвет", "Белый"))
  {
    assert "Цвет: Белый" == [] + "Цвет" + [] + ":" + " " + "Белый" + [];
    SplitAtColonRoundTrip("Цвет", "Белый", [], [], " ", []);
  }

  lemma DefinitionExample(dt: Located, dd: Node)
    requires TextContent(dt.node) == "Материал" && dt.next == Some(dd)
    requires IsTag(dd, "dd") && TextContent(dd) == "Керамика"
    ensures DefinitionPair(dt) == Some(("Материал", "Керамика"))
  {
    TrimmedTerm();
    TrimmedDefinition();
  }

  lemma TrimmedTerm()
    ensures Trim("Материал") == "Материал"
  {
    TrimPadded([], "Материал", []);
    assert [] + "Материал" + [] == "Материал";
  }

  lemma TrimmedDefinition()
    ensures Trim("Керамика") == "Керамика"
  {
    TrimPadded([], "Керамика", []);
    assert [] + "Керамика" + [] == "Керамика";
  }

  /** A table row is read from its first two cells, with their padding
      trimmed. */
  lemma TableRowExample(row: Located)
    requires |QueryAll(row.node, IsCell)| >= 2
    requires TextContent(QueryAll(row.node, IsCell)[0].node) == " Вес "
    requires TextContent(QueryAll(row.node, IsCell)[1].node) == "2 кг"
    ensures TableRowPair(row) == Some(("Вес", "2 кг"))
  {
    PaddedCell();
    PlainCell();
  }

  lemma PaddedCell()
    ensures Trim(" Вес ") == "Вес"
  {
    assert " Вес " == " " + "Вес" + " ";
    TrimPadded(" ", "Вес", " ");
  }

  lemma PlainCell()
    ensures Trim("2 кг") == "2 кг"
  {
    TrimPadded([], "2 кг", []);
    assert [] + "2 кг" + [] == "2 кг";
  }

  // ---- The extractor ----

  /** The `for ... of` over the headings, with its `break`. */
  method FindAttributesSection(headings: seq<Located>) returns (attributesSection: Option<Node>)
    ensures attributesSection == FindSection(headings)
  {
    attributesSection := None;
    var i := 0;
    while i < |headings|
      invariant i <= |headings|
      invariant forall j :: 0 <= j < i ==> !IsAttributesHeading(headings[j].node)
    {
      if IsAttributesHeading(headings[i].node) {
        attributesSection := headings[i].next;
        break;
      }
      i := i + 1;
    }
  }

  /** The body of tier 3's outer `forEach`: the inner loop that fits the
      element's kind. */
  method AssignContainer(attributes: map<string, string>, element: Located) returns (out: map<string, string>)
    ensures out == StoreAll(attributes, ContainerPairs(element))
  {
    var e := element.node;
    if IsTag(e, "dl") {
      var dts := QueryAll(e, IsDt);
      out := AssignEach(attributes, dts, DefinitionPair);
    } else if IsTag(e, "table") {
      var rows := QueryAll(e, IsTr);
      out := AssignEach(attributes, rows, TableRowPair);
    } else {
      var items := QueryAll(e, IsContainerItem);
      out := AssignEach(attributes, items, ContainerItemPair);
    }
  }

  /** The `forEach` over the elements of tier 3. */
  method AssignStructural(allElements: seq<Located>) returns (attributes: map<string, string>)
    ensures attributes == StoreAll(map[], StructuralPairs(allElements))
  {
    attributes := map[];
    var i := 0;
    while i < |allElements|
      invariant i <= |allElements|
      invariant attributes == StoreAll(map[], StructuralPairs(allElements[..i]))
    {
      attributes := AssignContainer(attributes, allElements[i]);
      StoreAllAppend(map[], StructuralPairs(allElements[..i]), ContainerPairs(allElements[i]));
      assert allElements[..i + 1][..i] == allElements[..i];
      i := i + 1;
    }
    assert allElements[..i] == allElements;
  }

  /** `getProductAttributes()` on the page `doc`. */
  method GetProductAttributes(doc: Node) returns (attributes: map<string, string>)
    ensures attributes == ProductAttributes(doc)
  {
    var attributesBlock := QueryFirst(doc, IsSpecBlock);
    if attributesBlock.Some? {
      var attributeRows := QueryAll(attributesBlock.value, IsSpecRow);
      attributes := AssignEach(map[], attributeRows, SpecRowPair);
    } else {
      var headings := QueryAll(doc, IsHeading);
      var attributesSection := FindAttributesSection(headings);
      attributes := map[];
      if attributesSection.Some? {
        var attributeItems := QueryAll(attributesSection.value, IsSectionItem);
        attributes := AssignEach(attributes, attributeItems, SectionItemPair);
      }
      if |attributes| == 0 {
        var allElements := QueryAll(doc, IsStructural);
        attributes := AssignStructural(allElements);
      }
    }
  }
}
