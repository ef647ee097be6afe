/**
 * The gallery of `ui.py`: the four values a card is built from, the cards made
 * from the index records, and the layouts of the card view: one vertical stack,
 * one horizontal stack, or rows of at most `max_column` cards.
 * Rendering is left abstract: a card is the tuple of its inputs and a card view
 * is a tree of stacks over opaque cards.
 */
module Ui {
  import opened Outcomes
  import opened Seqs
  import Utils

  /** A value passed to `card`: a string, a Markdown widget, a list, or `None`. */
  datatype Value = Str(s: string) | Markdown(text: string) | Items(items: seq<Value>) | Nothing

  /** The `name` argument of `card`: a display name, or a list holding all four fields. */
  datatype Name = Named(name: string) | Listed(fields: seq<Value>)

  /** What a card shows: its name, thumbnail, content and link. */
  datatype Card = Card(name: Value, thumbnail: Value, content: Value, link: Value)

  /** The Markdown placeholder for a missing thumbnail. */
  function DefaultThumbnail(name: string): Value {
    Markdown("<i> " + name + " </i>")
  }

  /** The Markdown placeholder for missing content. */
  function DefaultContent(name: string): Value {
    Markdown("Details for " + name)
  }

  /**
   * `card`: a list name supplies all four fields by position (name, thumbnail,
   * content, link) and the other arguments are ignored; a short list raises
   * IndexError. A plain name keeps the arguments and fills a missing thumbnail or
   * content with a placeholder that mentions the name.
   */
  function MakeCard(name: Name, thumbnail: Value, content: Value, link: Value): (r: Result<Card>)
    ensures name.Listed? ==> (r.Success? <==> |name.fields| >= 4)
    ensures name.Listed? && r.Success? ==>
      r.value == Card(name.fields[0], name.fields[1], name.fields[2], name.fields[3])
    ensures name.Named? ==> r.Success? && r.value.name == Str(name.name) && r.value.link == link
    ensures name.Named? ==>
      r.value.thumbnail == (if thumbnail.Nothing? then DefaultThumbnail(name.name) else thumbnail)
    ensures name.Named? ==>
      r.value.content == (if content.Nothing? then DefaultContent(name.name) else content)
  {
    match name
    case Listed(fields) =>
      if |fields| < 4 then Failure(IndexError)
      else Success(Card(fields[0], fields[1], fields[2], fields[3]))
    case Named(n) =>
      var thumb := if thumbnail.Nothing? then DefaultThumbnail(n) else thumbnail;
      var text := if content.Nothing? then DefaultContent(n) else content;
      Success(Card(Str(n), thumb, text, link))
  }

  /** The four fields of a card, in the order a list name gives them. */
  function Fields(c: Card): seq<Value> {
    [c.name, c.thumbnail, c.content, c.link]
  }

  /** A card's fields passed back as a list name rebuild the card, whatever the other arguments. */
  lemma MakeCardFromFields(c: Card, thumbnail: Value, content: Value, link: Value)
    ensures MakeCard(Listed(Fields(c)), thumbnail, content, link) == Success(c)
  {
  }

  /** A plain name given all three fields builds the card that lists them. */
  lemma MakeCardNamedAgrees(name: string, thumbnail: Value, content: Value, link: Value, other: Value)
    requires !thumbnail.Nothing? && !content.Nothing?
    ensures MakeCard(Named(name), thumbnail, content, link) ==
            MakeCard(Listed([Str(name), thumbnail, content, link]), other, other, other)
  {
  }

  /** `item[key]` on a card dictionary. */
  function Get(item: Utils.Record, key: string): (r: Result<string>)
    ensures r.Success? <==> key in item
    ensures r.Success? ==> r.value == item[key]
    ensures r.Failure? ==> r.error == KeyError(key)
  {
    if key in item then Success(item[key]) else Failure(KeyError(key))
  }

  /**
   * The card of one dictionary in `_get_cards`: its keys are read in the order
   * name, thumbnail, content, link, so the first of them that is missing is the
   * KeyError raised.
   */
  function CardOf(item: Utils.Record): (r: Result<Card>)
    ensures r.Success? <==> "name" in item && "thumbnail" in item && "content" in item && "link" in item
    ensures r.Failure? ==> r.error in {KeyError("name"), KeyError("thumbnail"), KeyError("content"), KeyError("link")}
  {
    var name :- Get(item, "name");
    var thumbnail :- Get(item, "thumbnail");
    var content :- Get(item, "content");
    var link :- Get(item, "link");
    MakeCard(Named(name), Str(thumbnail), Str(content), Str(link))
  }

  /** The keys `_get_cards` reads, in the order it reads them. */
  const CardKeys: seq<string> := ["name", "thumbnail", "content", "link"]

  /** `CardKeys[k]` is the first card key missing from `item`. */
  predicate FirstMissingKey(item: Utils.Record, k: nat)
    requires k < 4
  {
    CardKeys[k] !in item && forall j :: 0 <= j < k ==> CardKeys[j] in item
  }

  /** A dictionary with all four keys gives the card of its four strings; otherwise the first missing key is raised. */
  lemma CardOfKeys(item: Utils.Record)
    ensures CardOf(item).Success? <==> forall k :: 0 <= k < 4 ==> CardKeys[k] in item
    ensures CardOf(item).Success? ==>
      CardOf(item).value ==
        Card(Str(item["name"]), Str(item["thumbnail"]), Str(item["content"]), Str(item["link"]))
    ensures CardOf(item).Failure? ==>
      exists k :: 0 <= k < 4 && FirstMissingKey(item, k) && CardOf(item).error == KeyError(CardKeys[k])
  {
    if "name" !in item {
      assert CardKeys[0] !in item;
    } else if "thumbnail" !in item {
      assert CardKeys[1] !in item && CardKeys[0] in item;
    } else if "content" !in item {
      assert CardKeys[2] !in item && CardKeys[1] in item && CardKeys[0] in item;
    } else if "link" !in item {
      assert CardKeys[3] !in item && CardKeys[2] in item && CardKeys[1] in item && CardKeys[0] in item;
    }
  }

  /** The cards of a list of dictionaries, in order; the first dictionary that fails decides the exception. */
  function CardsOf(items: seq<Utils.Record>): (r: Result<seq<Card>>)
    decreases |items|
  {
    if items == [] then Success([])
    else
      var before :- CardsOf(items[..|items| - 1]);
      var last :- CardOf(items[|items| - 1]);
      Success(before + [last])
  }

  /** `_get_cards` succeeds exactly when every dictionary makes a card, and then gives one card per dictionary, in order. */
  lemma {:induction false} CardsOfOnePerItem(items: seq<Utils.Record>)
    ensures CardsOf(items).Success? <==> forall i :: 0 <= i < |items| ==> CardOf(items[i]).Success?
    ensures CardsOf(items).Success? ==>
      |CardsOf(items).value| == |items| &&
      forall i :: 0 <= i < |items| ==> CardsOf(items).value[i] == CardOf(items[i]).value
    decreases |items|
  {
    if items != [] {
      var init := items[..|items| - 1];
      CardsOfOnePerItem(init);
      assert forall i :: 0 <= i < |init| ==> init[i] == items[i];
    }
  }

  /** `items[i]` is the first dictionary that cannot make a card. */
  predicate FirstFailing(items: seq<Utils.Record>, i: int) {
    0 <= i < |items| && CardOf(items[i]).Failure? && forall j :: 0 <= j < i ==> CardOf(items[j]).Success?
  }

  /** A failure is that of the first dictionary that cannot make a card. */
  lemma {:induction false} CardsOfFirstFailure(items: seq<Utils.Record>)
    requires CardsOf(items).Failure?
    ensures exists i :: FirstFailing(items, i) && CardsOf(items).error == CardOf(items[i]).error
    decreases |items|
  {
    var init := items[..|items| - 1];
    assert forall i :: 0 <= i < |init| ==> init[i] == items[i];
    if CardsOf(init).Failure? {
      CardsOfFirstFailure(init);
      var i :| FirstFailing(init, i) && CardsOf(init).error == CardOf(init[i]).error;
      assert FirstFailing(items, i);
    } else {
      CardsOfOnePerItem(init);
      var i := |items| - 1;
      assert FirstFailing(items, i);
    }
  }

  /** `CardsOf` on a longer prefix: one more card, or the exception of the next dictionary. */
  lemma CardsOfSnoc(items: seq<Utils.Record>, i: nat)
    requires i < |items|
    ensures var init := items[..i];
      CardsOf(items[..i + 1]) ==
        match CardsOf(init)
        case Failure(e) => Failure(e)
        case Success(cards) =>
          match CardOf(items[i])
          case Failure(e) => Failure(e)
          case Success(c) => Success(cards + [c])
  {
    assert items[..i + 1][..i] == items[..i];
  }

  /** `_get_cards`: one card per dictionary, in order, or the KeyError of the first one missing a key. */
  method GetCards(cardDict: seq<Utils.Record>) returns (r: Result<seq<Card>>)
    ensures r == CardsOf(cardDict)
  {
    var cards: seq<Card> := [];
    for i := 0 to |cardDict|
      invariant CardsOf(cardDict[..i]) == Success(cards)
    {
      CardsOfSnoc(cardDict, i);
      var c := CardOf(cardDict[i]);
      if c.Failure? {
        CardsOfPrefixFails(cardDict, i + 1);
        return Failure(c.error);
      }
      cards := cards + [c.value];
    }
    assert cardDict[..|cardDict|] == cardDict;
    return Success(cards);
  }

  /** Once a prefix fails, the whole list fails with the same exception. */
  lemma {:induction false} CardsOfPrefixFails(items: seq<Utils.Record>, n: nat)
    requires n <= |items| && CardsOf(items[..n]).Failure?
    ensures CardsOf(items) == CardsOf(items[..n])
    decreases |items| - n
  {
    if n < |items| {
      CardsOfSnoc(items, n);
      CardsOfPrefixFails(items, n + 1);
    } else {
      assert items[..n] == items;
    }
  }

  /** The records the default index renames produce always make cards: they hold exactly the four card keys. */
  lemma DefaultRecordsMakeCards(rows: seq<Utils.Record>)
    ensures CardsOf(Utils.ProjectAll(Utils.DefaultRenames, rows)).Success?
  {
    var records := Utils.ProjectAll(Utils.DefaultRenames, rows);
    forall i | 0 <= i < |records| ensures CardOf(records[i]).Success? {
      Utils.DefaultProject(rows[i]);
      CardOfKeys(records[i]);
    }
    CardsOfOnePerItem(records);
  }

  /** A laid-out card view: cards at the leaves, horizontal and vertical stacks above them. */
  datatype Widget<C> = Leaf(card: C) | HStack(items: seq<Widget<C>>) | VStack(items: seq<Widget<C>>)

  function LeafOf<C>(c: C): Widget<C> {
    Leaf(c)
  }

  /** One row of the mixed layout: a horizontal stack of its cards. */
  function Row<C>(cards: seq<C>): Widget<C> {
    HStack(Map(LeafOf, cards))
  }

  /** The cards of the widgets `ws`, from left to right and from top to bottom. */
  function Flatten<C>(ws: seq<Widget<C>>): seq<C>
    decreases ws
  {
    if ws == [] then []
    else
      var head := match ws[0]
        case Leaf(c) => [c]
        case HStack(items) => Flatten(items)
        case VStack(items) => Flatten(items);
      head + Flatten(ws[1..])
  }

  /** Leaves flatten back to their cards. */
  lemma {:induction false} FlattenLeaves<C>(cards: seq<C>)
    ensures Flatten(Map(LeafOf, cards)) == cards
    decreases |cards|
  {
    if cards != [] {
      FlattenLeaves(cards[1..]);
      assert Map(LeafOf, cards)[1..] == Map(LeafOf, cards[1..]);
    }
  }

  /**
   * The rows of the mixed layout: slices of `k` cards taken from the front, the
   * last one shorter when `k` does not divide the number of cards.
   */
  function Chunks<C>(s: seq<C>, k: nat): seq<seq<C>>
    requires k > 0
    decreases |s|
  {
    if s == [] then []
    else if |s| <= k then [s]
    else [s[..k]] + Chunks(s[k..], k)
  }

  /** Concatenating the rows gives back the cards, in order. */
  lemma {:induction false} ChunksConcat<C>(s: seq<C>, k: nat)
    requires k > 0
    ensures Concat(Chunks(s, k)) == s
    decreases |s|
  {
    if |s| > k {
      ChunksConcat(s[k..], k);
      assert ([s[..k]] + Chunks(s[k..], k))[1..] == Chunks(s[k..], k);
      assert s[..k] + s[k..] == s;
    } else if s != [] {
      assert [s][1..] == [];
    }
  }

  /** Every row holds between one and `k` cards, and every row but the last exactly `k`. */
  lemma {:induction false} ChunksSizes<C>(s: seq<C>, k: nat)
    requires k > 0
    ensures forall j :: 0 <= j < |Chunks(s, k)| ==> 0 < |Chunks(s, k)[j]| <= k
    ensures forall j :: 0 <= j < |Chunks(s, k)| - 1 ==> |Chunks(s, k)[j]| == k
    decreases |s|
  {
    if |s| > k {
      ChunksSizes(s[k..], k);
      var rest := Chunks(s[k..], k);
      assert forall j :: 1 <= j < |Chunks(s, k)| ==> Chunks(s, k)[j] == rest[j - 1];
    }
  }

  /**
   * There are ceil(n / k) rows of `n` cards: `k` times the number of rows covers
   * the cards, one row fewer does not, and no cards give no rows.
   */
  lemma {:induction false} ChunksCount<C>(s: seq<C>, k: nat)
    requires k > 0
    ensures Chunks(s, k) == [] <==> s == []
    ensures |s| <= |Chunks(s, k)| * k
    ensures s != [] ==> (|Chunks(s, k)| - 1) * k < |s|
    decreases |s|
  {
    if |s| > k {
      ChunksCount(s[k..], k);
      var n := |Chunks(s[k..], k)|;
      assert |Chunks(s, k)| == n + 1;
      assert (n + 1) * k == n * k + k;
    }
  }

  /** The cards from position `i` on; none once `i` is past the end. */
  function From<C>(s: seq<C>, i: nat): seq<C> {
    if i < |s| then s[i..] else []
  }

  /** The row starting at `i` and the rows after it. */
  lemma ChunksFrom<C>(s: seq<C>, k: nat, i: nat)
    requires k > 0 && i < |s|
    ensures var j := if i + k <= |s| then i + k else |s|;
      Chunks(From(s, i), k) == [s[i..j]] + Chunks(From(s, i + k), k)
  {
    var t := s[i..];
    assert From(s, i) == t;
    if i + k < |s| {
      assert |t| > k;
      assert Chunks(t, k) == [t[..k]] + Chunks(t[k..], k);
      assert t[..k] == s[i..i + k] && t[k..] == s[i + k..] == From(s, i + k);
    } else {
      assert |t| <= k && t != [];
      assert Chunks(t, k) == [t] && From(s, i + k) == [];
      assert s[i..|s|] == t && Chunks(From(s, i + k), k) == [];
    }
  }

  lemma MapRowCons<C>(row: seq<C>, rows: seq<seq<C>>)
    ensures Map(Row, [row] + rows) == [Row(row)] + Map(Row, rows)
  {
  }

  /** The exception `range()` raises for a zero step. */
  const ZeroStep := ValueError("range() arg 3 must not be zero")

  /**
   * The loop of the mixed orientation: `range(0, len(cards), max_column)` and a
   * row for each slice `cards[i:i+max_column]`. A zero step raises ValueError; a
   * negative one gives an empty range and so no rows.
   */
  method MixedRows<C>(cards: seq<C>, maxColumn: int) returns (r: Result<seq<Widget<C>>>)
    ensures maxColumn == 0 ==> r == Failure(ZeroStep)
    ensures maxColumn < 0 ==> r == Success([])
    ensures maxColumn > 0 ==> r == Success(Map(Row, Chunks(cards, maxColumn)))
  {
    if maxColumn == 0 {
      return Failure(ZeroStep);
    }
    if maxColumn < 0 {
      return Success([]);
    }
    var m: nat := maxColumn;
    var view: seq<Widget<C>> := [];
    var i := 0;
    assert From(cards, 0) == cards;
    while i < |cards|
      invariant view + Map(Row, Chunks(From(cards, i), m)) == Map(Row, Chunks(cards, m))
      decreases |cards| - i
    {
      var j := if i + m <= |cards| then i + m else |cards|;
      ChunksFrom(cards, m, i);
      MapRowCons(cards[i..j], Chunks(From(cards, i + m), m));
      view := view + [Row(cards[i..j])];
      i := i + m;
    }
    assert From(cards, i) == [];
    assert view + [] == view;
    return Success(view);
  }

  /** The rows of the mixed layout hold the cards, in order. */
  lemma MixedRowsFlatten<C>(cards: seq<C>, k: nat)
    requires k > 0
    ensures Flatten(Map(Row, Chunks(cards, k))) == cards
  {
    RowsFlatten(Chunks(cards, k));
    ChunksConcat(cards, k);
  }

  lemma {:induction false} RowsFlatten<C>(rows: seq<seq<C>>)
    ensures Flatten(Map(Row, rows)) == Concat(rows)
    decreases |rows|
  {
    if rows != [] {
      RowsFlatten(rows[1..]);
      FlattenLeaves(rows[0]);
      assert Map(Row, rows)[1..] == Map(Row, rows[1..]);
      assert Map(Row, rows)[0] == HStack(Map(LeafOf, rows[0]));
    }
  }

  /**
   * `_card_view`: "vertical" appends one vertical stack of all the cards,
   * "horizontal" one horizontal stack, "mixed" a vertical stack of the rows, and
   * any other orientation appends nothing. `r` holds what is appended to the output.
   */
  method CardView<C>(cards: seq<C>, orientation: string, maxColumn: int) returns (r: Result<seq<Widget<C>>>)
    ensures orientation == "vertical" ==> r == Success([VStack(Map(LeafOf, cards))])
    ensures orientation == "horizontal" ==> r == Success([HStack(Map(LeafOf, cards))])
    ensures orientation == "mixed" && maxColumn == 0 ==> r == Failure(ZeroStep)
    ensures orientation == "mixed" && maxColumn < 0 ==> r == Success([VStack([])])
    ensures orientation == "mixed" && maxColumn > 0 ==> r == Success([VStack(Map(Row, Chunks(cards, maxColumn)))])
    ensures orientation !in {"vertical", "horizontal", "mixed"} ==> r == Success([])
  {
    if orientation == "vertical" {
      return Success([VStack(Map(LeafOf, cards))]);
    } else if orientation == "horizontal" {
      return Success([HStack(Map(LeafOf, cards))]);
    } else if orientation == "mixed" {
      var rows :- MixedRows(cards, maxColumn);
      return Success([VStack(rows)]);
    }
    return Success([]);
  }

  /** The function `CardView` computes: for every orientation it knows, the appended stack holds all the cards in order. */
  lemma CardViewKeepsCards<C>(cards: seq<C>, k: nat)
    requires k > 0
    ensures Flatten([VStack(Map(LeafOf, cards))]) == cards
    ensures Flatten([HStack(Map(LeafOf, cards))]) == cards
    ensures Flatten([VStack(Map(Row, Chunks(cards, k)))]) == cards
  {
    FlattenLeaves(cards);
    MixedRowsFlatten(cards, k);
    assert [VStack(Map(LeafOf, cards))][1..] == [];
  }
}
