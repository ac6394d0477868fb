/** The record-synthesis part of the fixture extender: each sampled row of the
    joined style/image table becomes one product record, and the new records
    are appended after the existing fixture under fresh primary keys. */
module ExtendProducts {
  import opened Text

  // ---------------------------------------------------------------------------
  // Rows

  /** A cell of a pandas row: a str, or any other value (NaN, None, a number). */
  datatype Value = Str(s: string) | NotStr

  /** One sampled row: the integer join key and the remaining cells by column. */
  datatype SampledRow = SampledRow(id: int, cells: map<string, Value>)

  /** row.get(column): a column the row lacks reads as None. */
  function Get(cells: map<string, Value>, column: string): Value {
    if column in cells then cells[column] else NotStr
  }

  /** safe_str: a stripped string, or "" for anything that is not a string. */
  function SafeStr(v: Value): (r: string)
    ensures !v.Str? ==> r == ""
    ensures v.Str? ==> |r| <= |v.s|
    ensures Trimmed(r)
  {
    if v.Str? then Strip(v.s) else ""
  }

  /** For a string, safe_str is str.strip(). */
  lemma SafeStrIsStrip(v: Value)
    requires v.Str?
    ensures IsStripOf(SafeStr(v), v.s)
  {
    StripIsStripOf(v.s);
  }

  /** The one string safe_str gives for a string input is its stripped form. */
  lemma SafeStrUnique(v: Value, r: string)
    requires v.Str? && IsStripOf(r, v.s)
    ensures SafeStr(v) == r
  {
    SafeStrIsStrip(v);
    StripOfUnique(SafeStr(v), r, v.s);
  }

  lemma SafeStrIdempotent(v: Value)
    ensures SafeStr(Str(SafeStr(v))) == SafeStr(v)
  {
    if v.Str? {
      StripIdempotent(v.s);
    }
  }

  // ---------------------------------------------------------------------------
  // build_description

  /** The six optional attributes, in the order their sentences appear. */
  datatype Attribute = Gender | MasterCategory | SubCategory | ArticleType | BaseColour | Usage

  const AttributeOrder: seq<Attribute> := [Gender, MasterCategory, SubCategory, ArticleType, BaseColour, Usage]

  function Rank(a: Attribute): nat {
    match a
    case Gender => 0
    case MasterCategory => 1
    case SubCategory => 2
    case ArticleType => 3
    case BaseColour => 4
    case Usage => 5
  }

  function Column(a: Attribute): string {
    match a
    case Gender => "gender"
    case MasterCategory => "masterCategory"
    case SubCategory => "subCategory"
    case ArticleType => "articleType"
    case BaseColour => "baseColour"
    case Usage => "usage"
  }

  /** The sentence template of each attribute, filled with its text. */
  function Sentence(a: Attribute, text: string): string {
    match a
    case Gender => "Designed for " + text + "."
    case MasterCategory => "Belongs to our " + text + " range."
    case SubCategory => "Subcategory: " + text + "."
    case ArticleType => "Style: " + text + "."
    case BaseColour => "Base colour: " + text + "."
    case Usage => "Ideal for " + text + " use."
  }

  function AttributeText(cells: map<string, Value>, a: Attribute): string {
    SafeStr(Get(cells, Column(a)))
  }

  function DisplayName(cells: map<string, Value>): string {
    SafeStr(Get(cells, "productDisplayName"))
  }

  const DescriptionFallbackName := "Fashion item"

  /** The name the description opens with. */
  function DescriptionName(cells: map<string, Value>): (r: string)
    ensures r != []
    ensures DisplayName(cells) != "" ==> r == DisplayName(cells)
    ensures DisplayName(cells) == "" ==> r == DescriptionFallbackName
  {
    var name := DisplayName(cells);
    if name != "" then name else DescriptionFallbackName
  }

  /** The first sentence: the name with its trailing dots replaced by one dot. */
  function NameSentence(cells: map<string, Value>): string {
    RStripChar(DescriptionName(cells), '.') + "."
  }

  /** The name sentence ends in exactly one dot, and what precedes it is the
      name up to a run of trailing dots. */
  lemma NameSentenceShape(cells: map<string, Value>)
    ensures var r := NameSentence(cells); var name := DescriptionName(cells);
      && |r| >= 1 && r[|r| - 1] == '.'
      && (|r| == 1 || r[|r| - 2] != '.')
      && |r| - 1 <= |name| && r[..|r| - 1] == name[..|r| - 1]
      && forall i :: |r| - 1 <= i < |name| ==> name[i] == '.'
  {
    var name := DescriptionName(cells);
    RStripCharShape(name, '.');
    var s := RStripChar(name, '.');
    assert (s + ".")[..|s|] == s;
  }

  /** The sentence of attribute a, filled with its lower-cased text. */
  function SentenceOf(cells: map<string, Value>, a: Attribute): string {
    Sentence(a, Lower(AttributeText(cells, a)))
  }

  /** What one `if attr: parts.append(...)` adds: nothing when the text is empty. */
  function OptionalSentence(cells: map<string, Value>, a: Attribute): seq<string> {
    if AttributeText(cells, a) != "" then [SentenceOf(cells, a)] else []
  }

  /** The `if attr: parts.append(...)` steps for the attributes of attrs, in
      order. */
  function AttributeSentences(cells: map<string, Value>, attrs: seq<Attribute>): seq<string> {
    if attrs == [] then [] else OptionalSentence(cells, attrs[0]) + AttributeSentences(cells, attrs[1..])
  }

  /** The `parts` list: the name sentence, then the attribute sentences. */
  function Sentences(cells: map<string, Value>): seq<string> {
    [NameSentence(cells)] + AttributeSentences(cells, AttributeOrder)
  }

  /** build_description */
  function BuildDescription(cells: map<string, Value>): string {
    Join(" ", Sentences(cells))
  }

  // The reference reading of build_description: filter the fixed attribute
  // order by non-empty text, then emit one sentence per kept attribute.

  /** The attributes of s come in the fixed order, each at most once. */
  predicate InOrder(s: seq<Attribute>) {
    forall i, j :: 0 <= i < j < |s| ==> Rank(s[i]) < Rank(s[j])
  }

  function NonEmptyAttributes(cells: map<string, Value>): set<Attribute> {
    set a | a in AttributeOrder && AttributeText(cells, a) != ""
  }

  /** The elements of attrs that are in keep, order kept. */
  function Keep(attrs: seq<Attribute>, keep: set<Attribute>): (p: seq<Attribute>)
    ensures |p| <= |attrs|
  {
    if attrs == [] then []
    else if attrs[0] in keep then [attrs[0]] + Keep(attrs[1..], keep)
    else Keep(attrs[1..], keep)
  }

  /** The attributes that contribute a sentence. */
  function Present(cells: map<string, Value>): seq<Attribute> {
    Keep(AttributeOrder, NonEmptyAttributes(cells))
  }

  function SentencesFor(cells: map<string, Value>, attrs: seq<Attribute>): (r: seq<string>)
    ensures |r| == |attrs|
  {
    if attrs == [] then [] else [SentenceOf(cells, attrs[0])] + SentencesFor(cells, attrs[1..])
  }

  /** One sentence per attribute, position by position. */
  lemma {:induction false} SentencesForAt(cells: map<string, Value>, attrs: seq<Attribute>)
    ensures forall i :: 0 <= i < |attrs| ==> SentencesFor(cells, attrs)[i] == SentenceOf(cells, attrs[i])
  {
    if attrs != [] {
      SentencesForAt(cells, attrs[1..]);
      var r := SentencesFor(cells, attrs);
      assert forall i :: 1 <= i < |attrs| ==> r[i] == SentencesFor(cells, attrs[1..])[i - 1];
    }
  }

  lemma {:induction false} KeepMembers(attrs: seq<Attribute>, keep: set<Attribute>, a: Attribute)
    ensures a in Keep(attrs, keep) <==> a in attrs && a in keep
  {
    if attrs != [] {
      KeepMembers(attrs[1..], keep, a);
      assert a in attrs <==> a == attrs[0] || a in attrs[1..];
    }
  }

  lemma {:induction false} KeepInOrder(attrs: seq<Attribute>, keep: set<Attribute>)
    requires InOrder(attrs)
    ensures InOrder(Keep(attrs, keep))
  {
    if attrs != [] {
      var tail := attrs[1..];
      assert InOrder(tail) by {
        forall i, j | 0 <= i < j < |tail| ensures Rank(tail[i]) < Rank(tail[j]) {
          assert tail[i] == attrs[i + 1] && tail[j] == attrs[j + 1];
        }
      }
      KeepInOrder(tail, keep);
      var rest := Keep(tail, keep);
      if attrs[0] in keep {
        forall i | 0 <= i < |rest| ensures Rank(attrs[0]) < Rank(rest[i]) {
          KeepMembers(tail, keep, rest[i]);
          var j :| 0 <= j < |tail| && tail[j] == rest[i];
          assert attrs[j + 1] == rest[i];
        }
        var p := [attrs[0]] + rest;
        forall i, j | 0 <= i < j < |p| ensures Rank(p[i]) < Rank(p[j]) {
          assert p[j] == rest[j - 1];
          if i > 0 {
            assert p[i] == rest[i - 1];
          }
        }
      }
    }
  }

  /** Every attribute has its place in the fixed order. */
  lemma InAttributeOrder(a: Attribute)
    ensures a in AttributeOrder
  {
    assert AttributeOrder[Rank(a)] == a;
  }

  /** The appending steps are the reference reading: filter by non-empty text,
      then one sentence per kept attribute. */
  lemma {:induction false} AttributeSentencesAreKept(cells: map<string, Value>, attrs: seq<Attribute>)
    ensures AttributeSentences(cells, attrs) == SentencesFor(cells, Keep(attrs, NonEmptyAttributes(cells)))
  {
    if attrs != [] {
      var K := NonEmptyAttributes(cells);
      AttributeSentencesAreKept(cells, attrs[1..]);
      InAttributeOrder(attrs[0]);
      if attrs[0] in K {
        var kept := [attrs[0]] + Keep(attrs[1..], K);
        assert kept[0] == attrs[0] && kept[1..] == Keep(attrs[1..], K);
      }
    }
  }

  /** An attribute contributes a sentence exactly when its text is non-empty,
      and the contributing attributes follow the fixed order. */
  lemma PresentIffNonEmpty(cells: map<string, Value>)
    ensures forall a :: a in Present(cells) <==> AttributeText(cells, a) != ""
    ensures InOrder(Present(cells))
  {
    forall a ensures a in Present(cells) <==> AttributeText(cells, a) != "" {
      KeepMembers(AttributeOrder, NonEmptyAttributes(cells), a);
      InAttributeOrder(a);
    }
    KeepInOrder(AttributeOrder, NonEmptyAttributes(cells));
  }

  /** No attribute contributes exactly when every attribute text is empty. */
  lemma PresentEmptyIff(cells: map<string, Value>)
    ensures Present(cells) == [] <==> forall a :: AttributeText(cells, a) == ""
  {
    PresentIffNonEmpty(cells);
    var p := Present(cells);
    if p != [] {
      assert p[0] in p;
    }
  }

  /** The `parts` list is the name sentence followed by one sentence per
      present attribute, in the fixed order. */
  lemma SentencesFollowOrder(cells: map<string, Value>)
    ensures Sentences(cells) == [NameSentence(cells)] + SentencesFor(cells, Present(cells))
    ensures |Sentences(cells)| == 1 + |Present(cells)|
  {
    AttributeSentencesAreKept(cells, AttributeOrder);
  }

  lemma SentenceEndsWithDot(a: Attribute, text: string)
    ensures var r := Sentence(a, text); |r| > 0 && r[|r| - 1] == '.'
  {
  }

  /** The `parts` list opens with the name sentence and closes with a
      sentence that ends in a dot. */
  lemma SentencesEnds(cells: map<string, Value>)
    ensures var parts := Sentences(cells);
      && |parts| == 1 + |Present(cells)|
      && parts[0] == NameSentence(cells)
      && parts[|parts| - 1] != [] && parts[|parts| - 1][|parts[|parts| - 1]| - 1] == '.'
  {
    SentencesFollowOrder(cells);
    NameSentenceShape(cells);
    LastSentenceEndsWithDot(NameSentence(cells), cells, Present(cells));
  }

  /** A list of sentences after a leading sentence that ends in a dot ends
      in a dot. */
  lemma LastSentenceEndsWithDot(first: string, cells: map<string, Value>, attrs: seq<Attribute>)
    requires first != [] && first[|first| - 1] == '.'
    ensures var parts := [first] + SentencesFor(cells, attrs);
      parts[|parts| - 1] != [] && parts[|parts| - 1][|parts[|parts| - 1]| - 1] == '.'
  {
    if attrs != [] {
      var parts := [first] + SentencesFor(cells, attrs);
      var a := attrs[|attrs| - 1];
      SentencesForAt(cells, attrs);
      assert parts[|parts| - 1] == SentencesFor(cells, attrs)[|attrs| - 1];
      SentenceEndsWithDot(a, Lower(AttributeText(cells, a)));
    }
  }

  /** The description opens with its name sentence, followed by a space when
      any attribute sentence comes after it, and closes with a dot. */
  lemma DescriptionShape(cells: map<string, Value>)
    ensures var d := BuildDescription(cells); var n := NameSentence(cells);
      |n| <= |d| && d[..|n|] == n
      && (Present(cells) == [] <==> d == n)
      && (Present(cells) != [] ==> |n| < |d| && d[|n|] == ' ')
      && d[|d| - 1] == '.'
  {
    SentencesEnds(cells);
    JoinedParts(Sentences(cells), NameSentence(cells), |Present(cells)|);
  }

  /** Joining a list with a given first element and a dot at its very end. */
  lemma JoinedParts(parts: seq<string>, first: string, more: nat)
    requires |parts| == 1 + more && parts[0] == first
    requires parts[|parts| - 1] != [] && parts[|parts| - 1][|parts[|parts| - 1]| - 1] == '.'
    ensures var d := Join(" ", parts);
      |first| <= |d| && d[..|first|] == first
      && (more == 0 <==> d == first)
      && (more != 0 ==> |first| < |d| && d[|first|] == ' ')
      && d[|d| - 1] == '.'
  {
    JoinShape(" ", parts);
  }

  /** A row that names "Blue Sneaker" and carries no attribute text. */
  lemma BlueSneakerCells(cells: map<string, Value>)
    requires cells == map["productDisplayName" := Str("Blue Sneaker"), "gender" := Str(" "), "usage" := NotStr]
    ensures DisplayName(cells) == "Blue Sneaker"
    ensures forall a :: AttributeText(cells, a) == ""
  {
    var name := "Blue Sneaker";
    assert SafeStr(Str(name)) == name by {
      assert Stretch(name, 0, |name|) && name[0..0 + |name|] == name;
      SafeStrUnique(Str(name), name);
    }
    assert SafeStr(Str(" ")) == "" by {
      assert Stretch(" ", 0, 0) && " "[0..0] == "";
      SafeStrUnique(Str(" "), "");
    }
    forall a ensures AttributeText(cells, a) == "" {
      assert a != Gender && a != Usage ==> Column(a) !in cells;
    }
  }

  /** A row named "Blue Sneaker" with no attribute text, such as the one of
      BlueSneakerCells, is described by its name sentence alone. */
  lemma BlueSneakerDescription(cells: map<string, Value>)
    requires DisplayName(cells) == "Blue Sneaker" && forall a :: AttributeText(cells, a) == ""
    ensures BuildDescription(cells) == "Blue Sneaker."
  {
    PresentEmptyIff(cells);
    DescriptionShape(cells);
    assert RStripChar("Blue Sneaker", '.') == "Blue Sneaker";
  }

  // ---------------------------------------------------------------------------
  // Category lookup

  const CategoryMap: map<string, int> := map[
    "Apparel" := 1,
    "Accessories" := 11,
    "Footwear" := 10,
    "Bags" := 12,
    "Personal Care" := 13,
    "Sporting Goods" := 14
  ]

  /** The key for labels outside CategoryMap ("New Arrivals"). */
  const DefaultCategory := 8

  /** CATEGORY_MAP.get(tag, 8) */
  function CategoryKey(tag: string): (k: int)
    ensures k in {1, 8, 10, 11, 12, 13, 14}
    ensures tag in CategoryMap ==> k == CategoryMap[tag]
    ensures k == DefaultCategory <==> tag !in CategoryMap
  {
    if tag in CategoryMap then CategoryMap[tag] else DefaultCategory
  }

  /** Distinct mapped labels never share a key. */
  lemma CategoryKeyInjective(l1: string, l2: string)
    requires l1 in CategoryMap && l2 in CategoryMap && l1 != l2
    ensures CategoryKey(l1) != CategoryKey(l2)
  {
  }

  lemma CategoryKeyExamples()
    ensures CategoryKey("Footwear") == 10
    ensures CategoryKey("") == DefaultCategory
    ensures CategoryKey("footwear") == DefaultCategory
  {
  }

  // ---------------------------------------------------------------------------
  // SKU

  /** f"FP{id:06d}" */
  function Sku(id: int): string {
    "FP" + FormatZeroFilled(id, 6)
  }

  /** Reads the id back out of a SKU. */
  function SkuId(sku: string): Option<int> {
    if |sku| >= 2 && sku[..2] == "FP" then ParseInt(sku[2..]) else None
  }

  lemma SkuRoundTrip(id: int)
    ensures SkuId(Sku(id)) == Some(id)
    ensures Sku(id)[..2] == "FP"
  {
    FormatZeroFilledRoundTrip(id, 6);
    assert Sku(id)[2..] == FormatZeroFilled(id, 6);
  }

  lemma SkuInjective(id1: int, id2: int)
    requires Sku(id1) == Sku(id2)
    ensures id1 == id2
  {
    SkuRoundTrip(id1);
    SkuRoundTrip(id2);
  }

  lemma SkuLength(id: int)
    requires 0 <= id < 1000000
    ensures |Sku(id)| == 8
  {
    assert Pow10(6) == 1000000;
    FormatZeroFilledLength(id, 6);
  }

  /** A five-digit id gains one leading zero. */
  lemma SkuExampleShort()
    ensures Sku(25947) == "FP025947"
  {
    assert Decimal(25947) == "25947" by {
      assert Decimal(2) == "2";
      assert Decimal(25) == Decimal(2) + "5";
      assert Decimal(259) == Decimal(25) + "9";
      assert Decimal(2594) == Decimal(259) + "4";
    }
    assert Zeros(1) == "0";
  }

  /** An id of more than six digits is kept whole. */
  lemma SkuExampleLong()
    ensures Sku(1234567) == "FP1234567"
  {
    assert Decimal(1234567) == "1234567" by {
      assert Decimal(1) == "1";
      assert Decimal(12) == Decimal(1) + "2";
      assert Decimal(123) == Decimal(12) + "3";
      assert Decimal(1234) == Decimal(123) + "4";
      assert Decimal(12345) == Decimal(1234) + "5";
      assert Decimal(123456) == Decimal(12345) + "6";
    }
    assert Zeros(0) == "";
  }

  /** A negative id keeps its sign in front of the zeros. */
  lemma SkuExampleNegative()
    ensures Sku(-5) == "FP-00005"
  {
    assert Decimal(5) == "5";
    assert Zeros(4) == "0000";
  }

  // ---------------------------------------------------------------------------
  // Records

  /** Price and rating chosen by the caller for one row (parsed or drawn at random). */
  datatype Draw = Draw(price: real, rating: real)

  datatype Fields = Fields(
    sku: string, name: string, description: string, price: real,
    category: int, rating: real, imageUrl: string, image: string)

  datatype Record = Record(pk: int, model: string, fields: Fields)

  const ProductModel := "products.product"
  const RecordFallbackName := "Fashion product"

  /** The fields dictionary built for one sampled row. */
  function BuildFields(row: SampledRow, draw: Draw): Fields {
    var name := DisplayName(row.cells);
    Fields(
      sku := Sku(row.id),
      name := if name != "" then name else RecordFallbackName,
      description := BuildDescription(row.cells),
      price := draw.price,
      category := CategoryKey(SafeStr(Get(row.cells, "masterCategory"))),
      rating := draw.rating,
      imageUrl := SafeStr(Get(row.cells, "link")),
      image := SafeStr(Get(row.cells, "filename")))
  }

  function BuildRecord(row: SampledRow, pk: int, draw: Draw): Record {
    Record(pk, ProductModel, BuildFields(row, draw))
  }

  /** What a synthesised record carries, field by field. */
  lemma BuildFieldsFacts(row: SampledRow, draw: Draw)
    ensures var f := BuildFields(row, draw);
      && f.name != ""
      && (DisplayName(row.cells) != "" ==> f.name == DisplayName(row.cells))
      && (DisplayName(row.cells) == "" ==> f.name == RecordFallbackName)
      && f.sku == Sku(row.id) && SkuId(f.sku) == Some(row.id)
      && f.description == BuildDescription(row.cells)
      && f.category == CategoryKey(AttributeText(row.cells, MasterCategory))
      && (AttributeText(row.cells, MasterCategory) in CategoryMap ==>
            f.category == CategoryMap[AttributeText(row.cells, MasterCategory)])
      && (f.category == DefaultCategory <==> AttributeText(row.cells, MasterCategory) !in CategoryMap)
      && f.imageUrl == SafeStr(Get(row.cells, "link")) && Trimmed(f.imageUrl)
      && f.image == SafeStr(Get(row.cells, "filename")) && Trimmed(f.image)
      && f.price == draw.price && f.rating == draw.rating
  {
    var f := BuildFields(row, draw);
    var tag := AttributeText(row.cells, MasterCategory);
    assert f.category == CategoryKey(tag);
    assert SkuId(f.sku) == Some(row.id) by {
      SkuRoundTrip(row.id);
    }
  }

  /** A nameless row is called "Fashion product" while its description opens
      with "Fashion item.": the two fallbacks differ. */
  lemma NamelessRow(row: SampledRow, draw: Draw)
    requires DisplayName(row.cells) == ""
    ensures BuildFields(row, draw).name == "Fashion product"
    ensures var d := BuildFields(row, draw).description;
      |d| >= 13 && d[..13] == "Fashion item."
  {
    assert RStripChar("Fashion item", '.') == "Fashion item";
    assert NameSentence(row.cells) == "Fashion item.";
    DescriptionShape(row.cells);
  }

  // ---------------------------------------------------------------------------
  // Primary keys and the appended fixture

  datatype Error = EmptyFixture  // max() of an empty fixture

  datatype Result<T> = Success(value: T) | Failure(error: Error)

  /** The primary keys of a record list, in list order. */
  function Keys(records: seq<Record>): (ks: seq<int>)
    ensures |ks| == |records|
  {
    if records == [] then [] else [records[0].pk] + Keys(records[1..])
  }

  lemma {:induction false} KeysAt(records: seq<Record>)
    ensures forall i :: 0 <= i < |records| ==> Keys(records)[i] == records[i].pk
  {
    if records != [] {
      KeysAt(records[1..]);
    }
  }

  /** The largest of a non-empty list of integers. */
  function MaxOf(ks: seq<int>): int
    requires ks != []
  {
    if |ks| == 1 then ks[0]
    else
      var rest := MaxOf(ks[1..]);
      if ks[0] >= rest then ks[0] else rest
  }

  /** MaxOf is an element of the list and no element exceeds it. */
  lemma {:induction false} MaxOfIsMax(ks: seq<int>)
    requires ks != []
    ensures exists i :: 0 <= i < |ks| && ks[i] == MaxOf(ks)
    ensures forall i :: 0 <= i < |ks| ==> ks[i] <= MaxOf(ks)
  {
    if |ks| > 1 {
      var tail := ks[1..];
      MaxOfIsMax(tail);
      var m := MaxOf(ks);
      assert m == if ks[0] >= MaxOf(tail) then ks[0] else MaxOf(tail);
      forall i | 1 <= i < |ks| ensures ks[i] <= m {
        assert ks[i] == tail[i - 1];
      }
      if ks[0] < MaxOf(tail) {
        var j :| 0 <= j < |tail| && tail[j] == MaxOf(tail);
        assert ks[j + 1] == m;
      } else {
        assert ks[0] == m;
      }
    } else {
      assert ks[0] == MaxOf(ks);
    }
  }

  /** max(item["pk"] for item in records) */
  function MaxPk(records: seq<Record>): int
    requires records != []
  {
    MaxOf(Keys(records))
  }

  /** MaxPk is a key of the list and no key exceeds it. */
  lemma MaxPkIsMax(records: seq<Record>)
    requires records != []
    ensures exists i :: 0 <= i < |records| && records[i].pk == MaxPk(records)
    ensures forall i :: 0 <= i < |records| ==> records[i].pk <= MaxPk(records)
  {
    KeysAt(records);
    var ks := Keys(records);
    MaxOfIsMax(ks);
    var k :| 0 <= k < |ks| && ks[k] == MaxOf(ks);
    assert records[k].pk == MaxPk(records);
  }

  /** One record per sampled row, keyed from start on in sampling order, its
      fields made by build. The builder is a parameter so that the key
      bookkeeping can be reasoned about apart from the field contents. */
  function Numbered(build: (SampledRow, Draw) -> Fields, sample: seq<SampledRow>, draws: seq<Draw>, start: int): (r: seq<Record>)
    requires |draws| == |sample|
    ensures |r| == |sample|
  {
    if sample == [] then []
    else
      var n := |sample| - 1;
      Numbered(build, sample[..n], draws[..n], start) + [Record(start + n, ProductModel, build(sample[n], draws[n]))]
  }

  /** The record at position i is the one built from row i under key start + i. */
  lemma {:induction false} NumberedAt(build: (SampledRow, Draw) -> Fields, sample: seq<SampledRow>, draws: seq<Draw>, start: int)
    requires |draws| == |sample|
    ensures var r := Numbered(build, sample, draws, start);
      forall i :: 0 <= i < |sample| ==> r[i] == Record(start + i, ProductModel, build(sample[i], draws[i]))
  {
    if sample != [] {
      var n := |sample| - 1;
      NumberedAt(build, sample[..n], draws[..n], start);
    }
  }

  /** Numbering one more row appends one more record. */
  lemma NumberedSnoc(build: (SampledRow, Draw) -> Fields, sample: seq<SampledRow>, draws: seq<Draw>, start: int, i: nat)
    requires |draws| == |sample| && i < |sample|
    ensures Numbered(build, sample[..i + 1], draws[..i + 1], start)
      == Numbered(build, sample[..i], draws[..i], start) + [Record(start + i, ProductModel, build(sample[i], draws[i]))]
  {
    var s, d := sample[..i + 1], draws[..i + 1];
    assert s[..i] == sample[..i] && d[..i] == draws[..i];
  }

  /** The `for _, row in sample.iterrows()` loop of main: build the item, key
      it with the counter, append it, bump the counter. */
  method NumberRows(build: (SampledRow, Draw) -> Fields, sample: seq<SampledRow>, draws: seq<Draw>, start: int)
    returns (newItems: seq<Record>)
    requires |draws| == |sample|
    ensures newItems == Numbered(build, sample, draws, start)
  {
    newItems := [];
    var pkCounter := start;
    var i := 0;
    while i < |sample|
      invariant 0 <= i <= |sample|
      invariant pkCounter == start + i
      invariant newItems == Numbered(build, sample[..i], draws[..i], start)
    {
      var item := Record(pkCounter, ProductModel, build(sample[i], draws[i]));
      NumberedSnoc(build, sample, draws, start, i);
      newItems := newItems + [item];
      pkCounter := pkCounter + 1;
      i := i + 1;
    }
    assert sample[..i] == sample && draws[..i] == draws;
  }

  /** The records the run adds, keyed from start on. */
  function NewRecords(sample: seq<SampledRow>, draws: seq<Draw>, start: int): (r: seq<Record>)
    requires |draws| == |sample|
    ensures |r| == |sample|
  {
    Numbered(BuildFields, sample, draws, start)
  }

  /** Each new record is BuildRecord of its row under its key. */
  lemma NewRecordsAt(sample: seq<SampledRow>, draws: seq<Draw>, start: int, i: int)
    requires |draws| == |sample| && 0 <= i < |sample|
    ensures NewRecords(sample, draws, start)[i] == BuildRecord(sample[i], start + i, draws[i])
  {
    NumberedAt(BuildFields, sample, draws, start);
  }

  /** The fixture after a run whose records are made by build: the existing
      records, then the sampled rows numbered from the largest key + 1. */
  function ExtendedWith(build: (SampledRow, Draw) -> Fields, existing: seq<Record>, sample: seq<SampledRow>, draws: seq<Draw>): Result<seq<Record>>
    requires |draws| == |sample|
  {
    if existing == [] then Failure(EmptyFixture)
    else Success(existing + Numbered(build, sample, draws, MaxPk(existing) + 1))
  }

  /** The fixture after the run: existing records, then the new ones. */
  function Extended(existing: seq<Record>, sample: seq<SampledRow>, draws: seq<Draw>): Result<seq<Record>>
    requires |draws| == |sample|
  {
    ExtendedWith(BuildFields, existing, sample, draws)
  }

  /** The body of main from the loaded fixture to the list it writes back:
      the largest existing key, the loop, and `existing + new_items`. */
  method ExtendWith(build: (SampledRow, Draw) -> Fields, existing: seq<Record>, sample: seq<SampledRow>, draws: seq<Draw>)
    returns (result: Result<seq<Record>>)
    requires |draws| == |sample|
    ensures result == ExtendedWith(build, existing, sample, draws)
  {
    if existing == [] {
      return Failure(EmptyFixture);
    }
    var maxPk := MaxPk(existing);
    var newItems := NumberRows(build, sample, draws, maxPk + 1);
    result := Success(existing + newItems);
  }

  /** main with the product record builder of the script. */
  method ExtendFixture(existing: seq<Record>, sample: seq<SampledRow>, draws: seq<Draw>)
    returns (result: Result<seq<Record>>)
    requires |draws| == |sample|
    ensures result == Extended(existing, sample, draws)
  {
    result := ExtendWith(BuildFields, existing, sample, draws);
  }

  predicate UniqueKeys(records: seq<Record>) {
    forall i, j :: 0 <= i < j < |records| ==> records[i].pk != records[j].pk
  }

  /** Only an empty fixture fails; otherwise the existing records stay as an
      unchanged prefix and one record per sampled row follows. */
  lemma ExtendedKeepsExisting(existing: seq<Record>, sample: seq<SampledRow>, draws: seq<Draw>)
    requires |draws| == |sample|
    ensures Extended(existing, sample, draws).Failure? <==> existing == []
    ensures var r := Extended(existing, sample, draws);
      r.Success? ==>
        && |r.value| == |existing| + |sample|
        && r.value[..|existing|] == existing
        && forall i :: 0 <= i < |sample| ==>
             r.value[|existing|..][i].model == ProductModel
             && r.value[|existing|..][i].fields == BuildFields(sample[i], draws[i])
  {
    if existing != [] {
      NumberedAt(BuildFields, sample, draws, MaxPk(existing) + 1);
      var r := Extended(existing, sample, draws).value;
      assert r[|existing|..] == NewRecords(sample, draws, MaxPk(existing) + 1);
    }
  }

  /** New keys run max+1 .. max+n in sampling order, above every existing key,
      whatever the records are built from. */
  lemma NewKeysContiguous(build: (SampledRow, Draw) -> Fields, existing: seq<Record>, sample: seq<SampledRow>, draws: seq<Draw>)
    requires |draws| == |sample| && existing != []
    ensures var out := ExtendedWith(build, existing, sample, draws).value;
      && (forall i :: |existing| <= i < |out| ==> out[i].pk == MaxPk(existing) + 1 + (i - |existing|))
      && (forall j, i :: 0 <= j < |existing| <= i < |out| ==> existing[j].pk < out[i].pk)
  {
    var start := MaxPk(existing) + 1;
    var added := Numbered(build, sample, draws, start);
    var out := ExtendedWith(build, existing, sample, draws).value;
    NumberedAt(build, sample, draws, start);
    MaxPkIsMax(existing);
    forall i | |existing| <= i < |out| ensures out[i].pk == start + (i - |existing|) {
      assert out[i] == added[i - |existing|];
    }
  }

  /** Extending keeps the keys of the fixture pairwise distinct, whatever the
      records are built from. */
  lemma ExtendedKeepsKeysUnique(build: (SampledRow, Draw) -> Fields, existing: seq<Record>, sample: seq<SampledRow>, draws: seq<Draw>)
    requires |draws| == |sample| && existing != [] && UniqueKeys(existing)
    ensures UniqueKeys(ExtendedWith(build, existing, sample, draws).value)
  {
    var out := ExtendedWith(build, existing, sample, draws).value;
    var m := MaxPk(existing);
    NewKeysContiguous(build, existing, sample, draws);
    forall i, j | 0 <= i < j < |out| ensures out[i].pk != out[j].pk {
      if j >= |existing| {
        assert out[j].pk == m + 1 + (j - |existing|);
        if i >= |existing| {
          assert out[i].pk == m + 1 + (i - |existing|);
        } else {
          assert out[i] == existing[i];
        }
      } else {
        assert out[i] == existing[i] && out[j] == existing[j];
      }
    }
  }

  /** The new maximum key is the old one plus the number of new records,
      whatever the records are built from. */
  lemma ExtendedMaxPk(build: (SampledRow, Draw) -> Fields, existing: seq<Record>, sample: seq<SampledRow>, draws: seq<Draw>)
    requires |draws| == |sample| && existing != []
    ensures MaxPk(ExtendedWith(build, existing, sample, draws).value) == MaxPk(existing) + |sample|
  {
    var out := ExtendedWith(build, existing, sample, draws).value;
    var m := MaxPk(existing);
    NewKeysContiguous(build, existing, sample, draws);
    MaxPkIsMax(existing);
    MaxPkIsMax(out);
    var top := MaxPk(out);
    var k :| 0 <= k < |out| && out[k].pk == top;
    if k < |existing| {
      assert out[k] == existing[k];
    }
    if sample != [] {
      assert out[|out| - 1].pk == m + |sample|;
    } else {
      var e :| 0 <= e < |existing| && existing[e].pk == m;
      assert out[e] == existing[e];
    }
  }

  /** Feeding the output back in continues the keys after the new maximum, so
      a second run never reuses a key of the first. */
  lemma RerunContinues(existing: seq<Record>, sample: seq<SampledRow>, draws: seq<Draw>,
                       sample2: seq<SampledRow>, draws2: seq<Draw>)
    requires |draws| == |sample| && |draws2| == |sample2| && existing != []
    ensures var once := Extended(existing, sample, draws).value;
      var twice := Extended(once, sample2, draws2).value;
      && |twice| == |once| + |sample2|
      && twice[..|once|] == once
      && forall i :: |once| <= i < |twice| ==> twice[i].pk == MaxPk(existing) + |sample| + 1 + (i - |once|)
  {
    var once := Extended(existing, sample, draws).value;
    ExtendedMaxPk(BuildFields, existing, sample, draws);
    ExtendedKeepsExisting(once, sample2, draws2);
    NewKeysContiguous(BuildFields, once, sample2, draws2);
  }
}
