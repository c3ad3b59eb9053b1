/** Loading scraped listings into the tables of properties and of their prices. */
module PropertyIngest {
  import opened Options

  datatype Price = Price(idr: Option<real>, usd: Option<real>)

  /** A listing is known by its source and the source's own id. */
  datatype Key = Key(source: string, externalId: string)

  datatype Item = Item(key: Key, price: Price)
  datatype PropertyRow = PropertyRow(id: nat, key: Key, price: Price)
  datatype PriceRow = PriceRow(propertyId: nat, price: Price)

  /** The two tables; ids below `nextId` have been given out. */
  datatype Tables = Tables(properties: seq<PropertyRow>, prices: seq<PriceRow>, nextId: nat)

  // ----- What one load does -----

  predicate Binds(data: seq<Item>, key: Key) {
    exists i :: 0 <= i < |data| && data[i].key == key
  }

  /** The stored rows of the batch's keys, by external id alone; of several the last one stays. */
  function ExistedRowsMap(rows: seq<PropertyRow>, data: seq<Item>): map<string, PropertyRow> {
    if rows == [] then map[]
    else
      var row := rows[|rows| - 1];
      var before := ExistedRowsMap(rows[..|rows| - 1], data);
      if Binds(data, row.key) then before[row.key.externalId := row] else before
  }

  /** The rows of the items whose external id is not in the map, with ids from `nextId` on. */
  function NewRows(data: seq<Item>, existed: map<string, PropertyRow>, nextId: nat): seq<PropertyRow> {
    if data == [] then []
    else
      var item := data[|data| - 1];
      var before := NewRows(data[..|data| - 1], existed, nextId);
      if item.key.externalId in existed then before
      else before + [PropertyRow(nextId + |before|, item.key, item.price)]
  }

  function FirstPrices(rows: seq<PropertyRow>): seq<PriceRow> {
    seq(|rows|, i requires 0 <= i < |rows| => PriceRow(rows[i].id, rows[i].price))
  }

  /** A price row for each item whose external id is in the map. */
  function AddedPrices(data: seq<Item>, existed: map<string, PropertyRow>): seq<PriceRow> {
    if data == [] then []
    else
      var item := data[|data| - 1];
      var before := AddedPrices(data[..|data| - 1], existed);
      if item.key.externalId in existed then before + [PriceRow(existed[item.key.externalId].id, item.price)]
      else before
  }

  function Load(t: Tables, data: seq<Item>): Tables {
    var existed := ExistedRowsMap(t.properties, data);
    var rows := NewRows(data, existed, t.nextId);
    Tables(t.properties + rows, t.prices + FirstPrices(rows) + AddedPrices(data, existed), t.nextId + |rows|)
  }

  class ParserBaseService {
    var tables: Tables

    constructor ()
      ensures tables == Tables([], [], 0)
    {
      tables := Tables([], [], 0);
    }

    method LoadToDb(data: seq<Item>)
      modifies this
      ensures tables == Load(old(tables), data)
    {
      var existedRowsMap: map<string, PropertyRow> := map[];
      for i := 0 to |tables.properties|
        invariant tables == old(tables)
        invariant existedRowsMap == ExistedRowsMap(tables.properties[..i], data)
      {
        var row := tables.properties[i];
        assert tables.properties[..i + 1][..i] == tables.properties[..i];
        if Binds(data, row.key) {
          existedRowsMap := existedRowsMap[row.key.externalId := row];
        }
      }
      assert tables.properties[..|tables.properties|] == tables.properties;

      var properties, prices, nextId := tables.properties, tables.prices, tables.nextId;
      for i := 0 to |data|
        invariant var rows := NewRows(data[..i], existedRowsMap, tables.nextId);
                  && properties == tables.properties + rows
                  && prices == tables.prices + FirstPrices(rows)
                  && nextId == tables.nextId + |rows|
        invariant tables == old(tables)
      {
        assert data[..i + 1][..i] == data[..i];
        var item := data[i];
        if item.key.externalId !in existedRowsMap {
          properties := properties + [PropertyRow(nextId, item.key, item.price)];
          prices := prices + [PriceRow(nextId, item.price)];
          nextId := nextId + 1;
        }
      }
      var added: seq<PriceRow> := [];
      for i := 0 to |data|
        invariant added == AddedPrices(data[..i], existedRowsMap)
        invariant tables == old(tables)
      {
        assert data[..i + 1][..i] == data[..i];
        var item := data[i];
        if item.key.externalId in existedRowsMap {
          added := added + [PriceRow(existedRowsMap[item.key.externalId].id, item.price)];
        }
      }
      assert data[..|data|] == data;
      tables := Tables(properties, prices + added, nextId);
    }
  }

  // ----- What the tables stand for -----

  /** The prices recorded for a property, in order. */
  function PricesOf(prices: seq<PriceRow>, id: nat): seq<Price> {
    if prices == [] then []
    else
      var before := PricesOf(prices[..|prices| - 1], id);
      if prices[|prices| - 1].propertyId == id then before + [prices[|prices| - 1].price] else before
  }

  /** The prices that were scraped for a listing, in order. */
  function Scraped(data: seq<Item>, key: Key): seq<Price> {
    if data == [] then []
    else
      var before := Scraped(data[..|data| - 1], key);
      if data[|data| - 1].key == key then before + [data[|data| - 1].price] else before
  }

  type Histories = map<Key, seq<Price>>

  function KeysOf(data: seq<Item>): set<Key> {
    set i | 0 <= i < |data| :: data[i].key
  }

  /** Histories after a batch: each listing's history continued by what was scraped for it. */
  function Continued(h: Histories, data: seq<Item>): Histories {
    map key | key in h.Keys + KeysOf(data) :: (if key in h then h[key] else []) + Scraped(data, key)
  }

  ghost predicate HasKey(rows: seq<PropertyRow>, key: Key) {
    exists i :: 0 <= i < |rows| && rows[i].key == key
  }

  ghost predicate HasId(rows: seq<PropertyRow>, id: nat) {
    exists i :: 0 <= i < |rows| && rows[i].id == id
  }

  ghost predicate LeadsTo(m: map<string, PropertyRow>, id: nat) {
    exists e :: e in m && m[e].id == id
  }

  ghost predicate UniqueIds(rows: seq<PropertyRow>) {
    forall i, j :: 0 <= i < j < |rows| ==> rows[i].id != rows[j].id
  }

  ghost predicate UniqueKeys(rows: seq<PropertyRow>) {
    forall i, j :: 0 <= i < j < |rows| ==> rows[i].key != rows[j].key
  }

  /** Ids are unique, and every price belongs to a property. */
  ghost predicate Consistent(t: Tables) {
    && (forall i :: 0 <= i < |t.properties| ==> t.properties[i].id < t.nextId)
    && UniqueIds(t.properties)
    && (forall p :: 0 <= p < |t.prices| ==> HasId(t.properties, t.prices[p].propertyId))
  }

  /** No two rows have the same key, and the rows and prices are exactly the histories. */
  ghost predicate StandsFor(t: Tables, h: Histories) {
    && UniqueKeys(t.properties)
    && (forall i :: 0 <= i < |t.properties| ==>
          t.properties[i].key in h && h[t.properties[i].key] == PricesOf(t.prices, t.properties[i].id))
    && (forall key :: key in h ==> HasKey(t.properties, key))
  }

  /**
   * What a caller has to see to: a key that is not stored yet comes only once, and no item has the external
   * id of a stored key of the batch under another source.
   */
  ghost predicate Clean(stored: set<Key>, data: seq<Item>) {
    && (forall i, j :: 0 <= i < j < |data| && data[i].key == data[j].key ==> data[i].key in stored)
    && (forall i, j ::
          && 0 <= i < |data| && 0 <= j < |data|
          && data[i].key in stored && data[i].key.externalId == data[j].key.externalId
          ==> data[i].key == data[j].key)
  }

  ghost predicate SingleSourceWithoutRepeats(data: seq<Item>) {
    && (forall i, j :: 0 <= i < |data| && 0 <= j < |data| ==> data[i].key.source == data[j].key.source)
    && (forall i, j :: 0 <= i < j < |data| ==> data[i].key.externalId != data[j].key.externalId)
  }

  lemma CleanBatch(stored: set<Key>, data: seq<Item>)
    requires SingleSourceWithoutRepeats(data)
    ensures Clean(stored, data)
  {
    forall i, j | 0 <= i < |data| && 0 <= j < |data| && data[i].key.externalId == data[j].key.externalId
      ensures data[i].key == data[j].key
    {
      assert i == j;
    }
  }

  // ----- One load -----

  /** The map leads from an external id to a stored row of the batch, for every stored row of the batch. */
  lemma {:induction false} ExistedFacts(rows: seq<PropertyRow>, data: seq<Item>, m: map<string, PropertyRow>)
    requires m == ExistedRowsMap(rows, data)
    ensures forall e :: e in m ==> m[e] in rows && m[e].key.externalId == e && Binds(data, m[e].key)
    ensures forall i :: 0 <= i < |rows| && Binds(data, rows[i].key) ==> rows[i].key.externalId in m
  {
    if rows != [] {
      var n := |rows| - 1;
      var before := ExistedRowsMap(rows[..n], data);
      ExistedFacts(rows[..n], data, before);
      forall e | e in m ensures m[e] in rows && m[e].key.externalId == e && Binds(data, m[e].key) {
        if m[e] != rows[n] {
          assert e in before && m[e] == before[e];
          var i :| 0 <= i < n && rows[..n][i] == m[e];
          assert rows[i] == m[e];
        }
      }
    }
  }

  lemma {:induction false} NewRowIds(data: seq<Item>, m: map<string, PropertyRow>, nextId: nat)
    ensures forall i :: 0 <= i < |NewRows(data, m, nextId)| ==> NewRows(data, m, nextId)[i].id == nextId + i
  {
    if data != [] { NewRowIds(data[..|data| - 1], m, nextId); }
  }

  /** The new rows are for the keys of the batch whose external id is not in the map. */
  lemma {:induction false} NewRowKeys(data: seq<Item>, m: map<string, PropertyRow>, nextId: nat, key: Key)
    ensures HasKey(NewRows(data, m, nextId), key) <==> key in KeysOf(data) && key.externalId !in m
  {
    if data != [] {
      var n := |data| - 1;
      NewRowKeys(data[..n], m, nextId, key);
      KeysOfOneMore(data);
      var before := NewRows(data[..n], m, nextId);
      HasKeyConcat(before, [PropertyRow(nextId + |before|, data[n].key, data[n].price)], key);
    }
  }

  lemma HasKeyConcat(a: seq<PropertyRow>, b: seq<PropertyRow>, key: Key)
    ensures HasKey(a + b, key) <==> HasKey(a, key) || HasKey(b, key)
    ensures |b| == 1 ==> (HasKey(b, key) <==> b[0].key == key)
  {
    if HasKey(a, key) {
      var i :| 0 <= i < |a| && a[i].key == key;
      assert (a + b)[i].key == key;
    }
    if HasKey(b, key) {
      var i :| 0 <= i < |b| && b[i].key == key;
      assert (a + b)[|a| + i].key == key;
    }
  }

  lemma UniqueKeysConcat(a: seq<PropertyRow>, b: seq<PropertyRow>)
    ensures UniqueKeys(a + b) <==> UniqueKeys(a) && UniqueKeys(b) && forall i :: 0 <= i < |b| ==> !HasKey(a, b[i].key)
  {
    if UniqueKeys(a + b) {
      assert forall i :: 0 <= i < |a| ==> (a + b)[i] == a[i];
      assert forall i :: 0 <= i < |b| ==> (a + b)[|a| + i] == b[i];
    }
  }

  lemma KeysOfOneMore(data: seq<Item>)
    requires data != []
    ensures KeysOf(data) == KeysOf(data[..|data| - 1]) + {data[|data| - 1].key}
  {
    var n := |data| - 1;
    assert forall i :: 0 <= i < n ==> data[..n][i].key == data[i].key;
  }

  lemma {:induction false} PricesOfConcat(a: seq<PriceRow>, b: seq<PriceRow>, id: nat)
    ensures PricesOf(a + b, id) == PricesOf(a, id) + PricesOf(b, id)
  {
    if b == [] {
      assert a + b == a;
    } else {
      PricesOfConcat(a, b[..|b| - 1], id);
      assert (a + b)[..|a + b| - 1] == a + b[..|b| - 1];
    }
  }

  lemma {:induction false} NoPricesOf(prices: seq<PriceRow>, id: nat)
    requires forall p :: 0 <= p < |prices| ==> prices[p].propertyId != id
    ensures PricesOf(prices, id) == []
  {
    if prices != [] { NoPricesOf(prices[..|prices| - 1], id); }
  }

  /** The new rows get one price each: the row's own. */
  lemma {:induction false} FirstPriceOf(rows: seq<PropertyRow>, i: nat)
    requires i < |rows| && UniqueIds(rows)
    ensures PricesOf(FirstPrices(rows), rows[i].id) == [rows[i].price]
  {
    var n := |rows| - 1;
    assert FirstPrices(rows)[..n] == FirstPrices(rows[..n]);
    if i < n { FirstPriceOf(rows[..n], i); } else { NoPricesOf(FirstPrices(rows[..n]), rows[i].id); }
  }

  /**
   * Prices added for stored rows: if just the items of `key` go to the property `id`, it gets what was scraped
   * for that key.
   */
  lemma {:induction false} AddedAreScraped(data: seq<Item>, m: map<string, PropertyRow>, id: nat, key: Key)
    requires forall j :: 0 <= j < |data| ==>
               (data[j].key == key <==> data[j].key.externalId in m && m[data[j].key.externalId].id == id)
    ensures PricesOf(AddedPrices(data, m), id) == Scraped(data, key)
  {
    if data != [] {
      var n := |data| - 1;
      AddedAreScraped(data[..n], m, id, key);
      var before := AddedPrices(data[..n], m);
      if data[n].key.externalId in m {
        var row := PriceRow(m[data[n].key.externalId].id, data[n].price);
        assert (before + [row])[..|before|] == before;
      }
    }
  }

  /** Every added price goes to a property of the map. */
  lemma {:induction false} AddedGoTo(data: seq<Item>, m: map<string, PropertyRow>)
    ensures forall p :: 0 <= p < |AddedPrices(data, m)| ==>
              LeadsTo(m, AddedPrices(data, m)[p].propertyId)
  {
    if data != [] {
      var n := |data| - 1;
      AddedGoTo(data[..n], m);
      var before, added := AddedPrices(data[..n], m), AddedPrices(data, m);
      forall p | 0 <= p < |added| ensures LeadsTo(m, added[p].propertyId) {
        if p < |before| {
          assert added[p] == before[p];
        } else {
          assert data[n].key.externalId in m && m[data[n].key.externalId].id == added[p].propertyId;
        }
      }
    }
  }

  /** Each item of a batch adds exactly one price row. */
  lemma {:induction false} OneRowPerItem(data: seq<Item>, m: map<string, PropertyRow>, nextId: nat)
    ensures |NewRows(data, m, nextId)| + |AddedPrices(data, m)| == |data|
  {
    if data != [] { OneRowPerItem(data[..|data| - 1], m, nextId); }
  }

  lemma {:induction false} ScrapedNothing(data: seq<Item>, key: Key)
    ensures Scraped(data, key) == [] <==> key !in KeysOf(data)
  {
    if data != [] {
      var n := |data| - 1;
      ScrapedNothing(data[..n], key);
      KeysOfOneMore(data);
    }
  }

  /**
   * Ids stay unique and no price is ever without its property, on any batch; the rows grow by the size of the
   * batch.
   */
  lemma LoadKeepsConsistent(t: Tables, data: seq<Item>)
    requires Consistent(t)
    ensures Consistent(Load(t, data))
    ensures |Load(t, data).prices| == |t.prices| + |data|
  {
    var m := ExistedRowsMap(t.properties, data);
    var rows := NewRows(data, m, t.nextId);
    var u := Load(t, data);
    ExistedFacts(t.properties, data, m);
    NewRowIds(data, m, t.nextId);
    AddedGoTo(data, m);
    OneRowPerItem(data, m, t.nextId);
    forall p | 0 <= p < |u.prices| ensures HasId(u.properties, u.prices[p].propertyId)
    {
      var a, b := |t.prices|, |rows|;
      if p < a {
        var i :| 0 <= i < |t.properties| && t.properties[i].id == t.prices[p].propertyId;
        assert u.properties[i] == t.properties[i];
      } else if p < a + b {
        assert u.prices[p] == FirstPrices(rows)[p - a];
        assert u.properties[|t.properties| + (p - a)] == rows[p - a];
      } else {
        assert u.prices[p] == AddedPrices(data, m)[p - a - b];
        var e :| e in m && m[e].id == u.prices[p].propertyId;
        var i :| 0 <= i < |t.properties| && t.properties[i] == m[e];
        assert u.properties[i] == t.properties[i];
      }
    }
  }

  /** On a clean batch the map leads from each item to the stored row of its own key, if there is one. */
  lemma CleanMap(t: Tables, h: Histories, data: seq<Item>, j: nat)
    requires StandsFor(t, h) && Clean(h.Keys, data) && j < |data|
    ensures var m, e := ExistedRowsMap(t.properties, data), data[j].key.externalId;
            && (e in m <==> data[j].key in h)
            && (e in m ==> m[e].key == data[j].key)
  {
    var m, e := ExistedRowsMap(t.properties, data), data[j].key.externalId;
    ExistedFacts(t.properties, data, m);
    if e in m {
      var i :| 0 <= i < |data| && data[i].key == m[e].key;
      assert m[e].key in h;
    }
    if data[j].key in h {
      var i :| 0 <= i < |t.properties| && t.properties[i].key == data[j].key;
    }
  }

  lemma {:induction false} PricesOfStored(t: Tables, data: seq<Item>, id: nat)
    requires id < t.nextId
    ensures PricesOf(Load(t, data).prices, id) ==
            PricesOf(t.prices, id) + PricesOf(AddedPrices(data, ExistedRowsMap(t.properties, data)), id)
  {
    var m := ExistedRowsMap(t.properties, data);
    var rows := NewRows(data, m, t.nextId);
    NewRowIds(data, m, t.nextId);
    NoPricesOf(FirstPrices(rows), id);
    PricesOfConcat(t.prices + FirstPrices(rows), AddedPrices(data, m), id);
    PricesOfConcat(t.prices, FirstPrices(rows), id);
  }

  lemma {:induction false} PricesOfNew(t: Tables, data: seq<Item>, i: nat)
    requires Consistent(t) && i < |NewRows(data, ExistedRowsMap(t.properties, data), t.nextId)|
    ensures var row := NewRows(data, ExistedRowsMap(t.properties, data), t.nextId)[i];
            PricesOf(Load(t, data).prices, row.id) == [row.price]
  {
    var m := ExistedRowsMap(t.properties, data);
    var rows := NewRows(data, m, t.nextId);
    var id := rows[i].id;
    NewRowIds(data, m, t.nextId);
    FirstPriceOf(rows, i);
    NoPricesOf(t.prices, id) by {
      forall p | 0 <= p < |t.prices| ensures t.prices[p].propertyId != id {
        assert HasId(t.properties, t.prices[p].propertyId);
      }
    }
    NothingAddedBeyond(t, data, id);
    PricesOfConcat(t.prices + FirstPrices(rows), AddedPrices(data, m), id);
    PricesOfConcat(t.prices, FirstPrices(rows), id);
  }

  lemma {:induction false} NothingAddedBeyond(t: Tables, data: seq<Item>, id: nat)
    requires Consistent(t) && id >= t.nextId
    ensures PricesOf(AddedPrices(data, ExistedRowsMap(t.properties, data)), id) == []
  {
    var m := ExistedRowsMap(t.properties, data);
    ExistedFacts(t.properties, data, m);
    AddedGoTo(data, m);
    NoPricesOf(AddedPrices(data, m), id) by {
      forall p | 0 <= p < |AddedPrices(data, m)| ensures AddedPrices(data, m)[p].propertyId != id {
        assert LeadsTo(m, AddedPrices(data, m)[p].propertyId);
      }
    }
  }

  lemma {:induction false} KeysAndIdsAgree(rows: seq<PropertyRow>, i: nat, o: nat)
    requires UniqueKeys(rows) && UniqueIds(rows) && i < |rows| && o < |rows|
    ensures rows[i].key == rows[o].key <==> rows[i].id == rows[o].id
  {
  }

  lemma {:induction false} ExistedAt(t: Tables, data: seq<Item>, e: string) returns (o: nat)
    requires e in ExistedRowsMap(t.properties, data)
    ensures o < |t.properties| && t.properties[o] == ExistedRowsMap(t.properties, data)[e]
  {
    var m := ExistedRowsMap(t.properties, data);
    ExistedFacts(t.properties, data, m);
    o :| 0 <= o < |t.properties| && t.properties[o] == m[e];
  }

  /** On a clean batch an item leads to a stored row exactly when it has that row's key. */
  lemma {:induction false} LeadsToOwnRow(t: Tables, h: Histories, data: seq<Item>, i: nat, j: nat)
    requires Consistent(t) && StandsFor(t, h) && Clean(h.Keys, data) && i < |t.properties| && j < |data|
    ensures var m, e := ExistedRowsMap(t.properties, data), data[j].key.externalId;
            data[j].key == t.properties[i].key <==> e in m && m[e].id == t.properties[i].id
  {
    CleanMap(t, h, data, j);
    if data[j].key.externalId in ExistedRowsMap(t.properties, data) {
      var o := ExistedAt(t, data, data[j].key.externalId);
      KeysAndIdsAgree(t.properties, i, o);
    }
  }

  lemma {:induction false} StoredRowIsContinued(t: Tables, h: Histories, data: seq<Item>, i: nat)
    requires Consistent(t) && StandsFor(t, h) && Clean(h.Keys, data) && i < |t.properties|
    ensures var row := t.properties[i];
            PricesOf(Load(t, data).prices, row.id) == h[row.key] + Scraped(data, row.key)
  {
    var row := t.properties[i];
    var m := ExistedRowsMap(t.properties, data);
    PricesOfStored(t, data, row.id);
    forall j | 0 <= j < |data|
      ensures data[j].key == row.key <==> data[j].key.externalId in m && m[data[j].key.externalId].id == row.id
    {
      LeadsToOwnRow(t, h, data, i, j);
    }
    AddedAreScraped(data, m, row.id, row.key);
  }

  /** New keys that come once each have one row and one scraped price, the row's own. */
  lemma {:induction false} NewRowHasScraped(data: seq<Item>, m: map<string, PropertyRow>, nextId: nat, i: nat)
    requires i < |NewRows(data, m, nextId)|
    requires forall a, b :: 0 <= a < b < |data| && data[a].key == data[b].key ==> data[a].key.externalId in m
    ensures UniqueKeys(NewRows(data, m, nextId))
    ensures Scraped(data, NewRows(data, m, nextId)[i].key) == [NewRows(data, m, nextId)[i].price]
  {
    var n := |data| - 1;
    var before, rows := NewRows(data[..n], m, nextId), NewRows(data, m, nextId);
    assert forall a, b :: 0 <= a < b < n && data[..n][a].key == data[..n][b].key ==> data[a].key.externalId in m;
    if before != [] { NewRowHasScraped(data[..n], m, nextId, if i < |before| then i else 0); }
    if data[n].key.externalId !in m {
      forall a | 0 <= a < n ensures data[..n][a].key != data[n].key { assert data[..n][a] == data[a]; }
      NewRowKeys(data[..n], m, nextId, data[n].key);
      ScrapedNothing(data[..n], data[n].key);
    } else if i < |before| {
      NewRowKeys(data, m, nextId, rows[i].key);
    }
  }

  /** A clean batch continues each listing's history by exactly what was scraped for it. */
  lemma {:induction false} LoadContinues(t: Tables, h: Histories, data: seq<Item>)
    requires Consistent(t) && StandsFor(t, h) && Clean(h.Keys, data)
    ensures StandsFor(Load(t, data), Continued(h, data))
  {
    var u, k := Load(t, data), Continued(h, data);
    KeysAfterLoad(t, h, data);
    forall i | 0 <= i < |u.properties|
      ensures u.properties[i].key in k && k[u.properties[i].key] == PricesOf(u.prices, u.properties[i].id)
    {
      RowInHistory(t, h, data, i);
    }
  }

  lemma ContinuedAt(h: Histories, data: seq<Item>, key: Key)
    requires key in h
    ensures key in Continued(h, data) && Continued(h, data)[key] == h[key] + Scraped(data, key)
  {
  }

  lemma RowsAfterLoad(t: Tables, data: seq<Item>, i: nat)
    requires i < |Load(t, data).properties|
    ensures var rows := NewRows(data, ExistedRowsMap(t.properties, data), t.nextId);
            if i < |t.properties| then Load(t, data).properties[i] == t.properties[i]
            else i - |t.properties| < |rows| && Load(t, data).properties[i] == rows[i - |t.properties|]
  {
  }

  lemma {:induction false} StoredRowInHistory(t: Tables, h: Histories, data: seq<Item>, i: nat)
    requires Consistent(t) && StandsFor(t, h) && Clean(h.Keys, data) && i < |t.properties|
    ensures var row := t.properties[i];
            && row.key in Continued(h, data)
            && Continued(h, data)[row.key] == PricesOf(Load(t, data).prices, row.id)
  {
    StoredRowIsContinued(t, h, data, i);
    ContinuedAt(h, data, t.properties[i].key);
  }

  lemma {:induction false} RowInHistory(t: Tables, h: Histories, data: seq<Item>, i: nat)
    requires Consistent(t) && StandsFor(t, h) && Clean(h.Keys, data) && i < |Load(t, data).properties|
    ensures var row := Load(t, data).properties[i];
            && row.key in Continued(h, data)
            && Continued(h, data)[row.key] == PricesOf(Load(t, data).prices, row.id)
  {
    RowsAfterLoad(t, data, i);
    if i < |t.properties| {
      StoredRowInHistory(t, h, data, i);
    } else {
      NewRowIsItsHistory(t, h, data, i - |t.properties|);
    }
  }

  lemma {:induction false} KeysAfterLoad(t: Tables, h: Histories, data: seq<Item>)
    requires Consistent(t) && StandsFor(t, h) && Clean(h.Keys, data)
    ensures UniqueKeys(Load(t, data).properties)
    ensures forall key :: key in Continued(h, data) ==> HasKey(Load(t, data).properties, key)
  {
    var m := ExistedRowsMap(t.properties, data);
    var rows := NewRows(data, m, t.nextId);
    UniqueKeysConcat(t.properties, rows);
    forall i | 0 <= i < |rows| ensures UniqueKeys(rows) && !HasKey(t.properties, rows[i].key) {
      NewRowIsItsHistory(t, h, data, i);
    }
    forall key | key in Continued(h, data) ensures HasKey(Load(t, data).properties, key) {
      HasKeyConcat(t.properties, rows, key);
      if key !in h {
        var j :| 0 <= j < |data| && data[j].key == key;
        CleanMap(t, h, data, j);
        NewRowKeys(data, m, t.nextId, key);
      }
    }
  }

  lemma {:induction false} NewRowIsItsHistory(t: Tables, h: Histories, data: seq<Item>, i: nat)
    requires Consistent(t) && StandsFor(t, h) && Clean(h.Keys, data)
    requires i < |NewRows(data, ExistedRowsMap(t.properties, data), t.nextId)|
    ensures var rows := NewRows(data, ExistedRowsMap(t.properties, data), t.nextId);
            && UniqueKeys(rows) && rows[i].key !in h && rows[i].key in Continued(h, data)
            && Continued(h, data)[rows[i].key] == PricesOf(Load(t, data).prices, rows[i].id)
  {
    var m := ExistedRowsMap(t.properties, data);
    var rows := NewRows(data, m, t.nextId);
    forall a, b | 0 <= a < b < |data| && data[a].key == data[b].key ensures data[a].key.externalId in m {
      CleanMap(t, h, data, a);
    }
    NewRowHasScraped(data, m, t.nextId, i);
    PricesOfNew(t, data, i);
    assert HasKey(rows, rows[i].key);
    NewRowKeys(data, m, t.nextId, rows[i].key);
    var j :| 0 <= j < |data| && data[j].key == rows[i].key;
    CleanMap(t, h, data, j);
  }

  /** If the map has another row for a stored row's external id, then nothing is added to that stored row. */
  lemma {:induction false} NothingLeadsTo(t: Tables, data: seq<Item>, i: nat)
    requires Consistent(t) && i < |t.properties|
    requires var m, row := ExistedRowsMap(t.properties, data), t.properties[i];
             row.key.externalId in m && m[row.key.externalId].key != row.key
    ensures PricesOf(Load(t, data).prices, t.properties[i].id) == PricesOf(t.prices, t.properties[i].id)
  {
    var m, id := ExistedRowsMap(t.properties, data), t.properties[i].id;
    ExistedFacts(t.properties, data, m);
    AddedGoTo(data, m);
    PricesOfStored(t, data, id);
    forall f | f in m ensures m[f].id != id {
      var o :| 0 <= o < |t.properties| && t.properties[o] == m[f];
    }
    NoPricesOf(AddedPrices(data, m), id) by {
      forall p | 0 <= p < |AddedPrices(data, m)| ensures AddedPrices(data, m)[p].propertyId != id {
        assert LeadsTo(m, AddedPrices(data, m)[p].propertyId);
      }
    }
  }

  /** If a load did continue the histories, then the map led from each item only to its own row. */
  lemma {:induction false} OwnRowIsNeeded(t: Tables, h: Histories, data: seq<Item>, x: nat)
    requires Consistent(t) && StandsFor(t, h) && x < |data|
    requires StandsFor(Load(t, data), Continued(h, data))
    ensures var m, e := ExistedRowsMap(t.properties, data), data[x].key.externalId;
            e in m ==> m[e].key == data[x].key
  {
    var m, key := ExistedRowsMap(t.properties, data), data[x].key;
    var rows, u := NewRows(data, m, t.nextId), Load(t, data);
    if key.externalId in m && m[key.externalId].key != key {
      ScrapedNothing(data, key);
      assert key in KeysOf(data) && HasKey(u.properties, key);
      HasKeyConcat(t.properties, rows, key);
      NewRowKeys(data, m, t.nextId, key);
      var i :| 0 <= i < |t.properties| && t.properties[i].key == key;
      assert u.properties[i] == t.properties[i];
      NothingLeadsTo(t, data, i);
    }
  }

  lemma {:induction false} OnlyCleanContinues(t: Tables, h: Histories, data: seq<Item>)
    requires Consistent(t) && StandsFor(t, h)
    requires StandsFor(Load(t, data), Continued(h, data))
    ensures Clean(h.Keys, data)
  {
    var m := ExistedRowsMap(t.properties, data);
    ExistedFacts(t.properties, data, m);
    forall i, j |
      && 0 <= i < |data| && 0 <= j < |data|
      && data[i].key in h && data[i].key.externalId == data[j].key.externalId
      ensures data[i].key == data[j].key
    {
      var r :| 0 <= r < |t.properties| && t.properties[r].key == data[i].key;
      OwnRowIsNeeded(t, h, data, i);
      OwnRowIsNeeded(t, h, data, j);
    }
    forall i, j | 0 <= i < j < |data| && data[i].key == data[j].key ensures data[i].key in h {
      OwnRowIsNeeded(t, h, data, i);
      if data[i].key.externalId !in m {
        UniqueKeysConcat(t.properties, NewRows(data, m, t.nextId));
        TwiceNewIsTwoRows(data, m, t.nextId, i, j);
      }
    }
  }

  lemma {:induction false} TwiceNewIsTwoRows(data: seq<Item>, m: map<string, PropertyRow>, nextId: nat, i: nat, j: nat)
    requires i < j < |data| && data[i].key == data[j].key && data[i].key.externalId !in m
    ensures !UniqueKeys(NewRows(data, m, nextId))
  {
    var n := |data| - 1;
    var rows, before := NewRows(data, m, nextId), NewRows(data[..n], m, nextId);
    if j < n {
      TwiceNewIsTwoRows(data[..n], m, nextId, i, j);
      var a, b :| 0 <= a < b < |before| && before[a].key == before[b].key;
      assert rows[a].key == rows[b].key;
    } else {
      assert data[..n][i].key == data[n].key;
      NewRowKeys(data[..n], m, nextId, data[n].key);
      var a :| 0 <= a < |before| && before[a].key == data[n].key;
      assert rows[a].key == rows[|before|].key;
    }
  }

  /** The two tables go on standing for the price histories exactly on the clean batches. */
  lemma {:induction false} LoadContinuesExactly(t: Tables, h: Histories, data: seq<Item>)
    requires Consistent(t) && StandsFor(t, h)
    ensures StandsFor(Load(t, data), Continued(h, data)) <==> Clean(h.Keys, data)
  {
    if Clean(h.Keys, data) { LoadContinues(t, h, data); }
    if StandsFor(Load(t, data), Continued(h, data)) { OnlyCleanContinues(t, h, data); }
  }

  // ----- Runs -----

  function TablesAfter(batches: seq<seq<Item>>): Tables {
    if batches == [] then Tables([], [], 0)
    else Load(TablesAfter(batches[..|batches| - 1]), batches[|batches| - 1])
  }

  function AllItems(batches: seq<seq<Item>>): seq<Item> {
    if batches == [] then [] else AllItems(batches[..|batches| - 1]) + batches[|batches| - 1]
  }

  lemma {:induction false} ScrapedConcat(a: seq<Item>, b: seq<Item>, key: Key)
    ensures Scraped(a + b, key) == Scraped(a, key) + Scraped(b, key)
  {
    if b == [] {
      assert a + b == a;
    } else {
      ScrapedConcat(a, b[..|b| - 1], key);
      assert (a + b)[..|a + b| - 1] == a + b[..|b| - 1];
    }
  }

  lemma KeysOfConcat(a: seq<Item>, b: seq<Item>)
    ensures KeysOf(a + b) == KeysOf(a) + KeysOf(b)
  {
    assert forall i :: 0 <= i < |a| ==> (a + b)[i] == a[i];
    assert forall i :: 0 <= i < |b| ==> (a + b)[|a| + i] == b[i];
  }

  lemma {:induction false} HistoryOfConcat(a: seq<Item>, b: seq<Item>, key: Key)
    ensures (if key in KeysOf(a) then Scraped(a, key) else []) + Scraped(b, key) == Scraped(a + b, key)
  {
    ScrapedConcat(a, b, key);
    ScrapedNothing(a, key);
  }

  lemma {:induction false} FirstHistories(data: seq<Item>)
    ensures var h := Continued(map[], data);
            h.Keys == KeysOf(data) && forall key :: key in h ==> h[key] == Scraped(data, key)
  {
    forall key | key in KeysOf(data) ensures Continued(map[], data)[key] == Scraped(data, key) {
      assert [] + Scraped(data, key) == Scraped(data, key);
    }
  }

  lemma {:induction false} ContinuedTwice(a: seq<Item>, b: seq<Item>)
    ensures Continued(Continued(map[], a), b) == Continued(map[], a + b)
  {
    var h, whole := Continued(map[], a), Continued(map[], a + b);
    KeysOfConcat(a, b);
    FirstHistories(a);
    FirstHistories(a + b);
    forall key | key in whole ensures Continued(h, b)[key] == whole[key] {
      HistoryOfConcat(a, b, key);
      assert Continued(h, b)[key] == (if key in h then h[key] else []) + Scraped(b, key);
    }
    assert Continued(h, b).Keys == whole.Keys;
  }

  /** The tables after the batches hold every listing's scraped prices in order, under unique keys. */
  ghost predicate HistoriesHold(batches: seq<seq<Item>>) {
    StandsFor(TablesAfter(batches), Continued(map[], AllItems(batches)))
  }

  /** The batch is clean for the keys stored before it. */
  ghost predicate CleanAt(batches: seq<seq<Item>>, b: nat)
    requires b < |batches|
  {
    Clean(KeysOf(AllItems(batches[..b])), batches[b])
  }

  /** On any batches ids stay unique and every price has its property, and there is one price row per scraped item. */
  lemma {:induction false} EveryRunIsConsistent(batches: seq<seq<Item>>)
    ensures Consistent(TablesAfter(batches)) && |TablesAfter(batches).prices| == |AllItems(batches)|
  {
    if batches != [] {
      EveryRunIsConsistent(batches[..|batches| - 1]);
      LoadKeepsConsistent(TablesAfter(batches[..|batches| - 1]), batches[|batches| - 1]);
    }
  }

  lemma {:induction false} NextBatchExactly(batches: seq<seq<Item>>)
    requires batches != [] && HistoriesHold(batches[..|batches| - 1])
    ensures HistoriesHold(batches) <==> CleanAt(batches, |batches| - 1)
  {
    var n := |batches| - 1;
    var h := Continued(map[], AllItems(batches[..n]));
    EveryRunIsConsistent(batches[..n]);
    ContinuedTwice(AllItems(batches[..n]), batches[n]);
    LoadContinuesExactly(TablesAfter(batches[..n]), h, batches[n]);
    assert h.Keys == KeysOf(AllItems(batches[..n]));
  }

  lemma {:induction false} HoldsNextExactly(batches: seq<seq<Item>>, b: nat)
    requires b < |batches| && HistoriesHold(batches[..b])
    ensures HistoriesHold(batches[..b + 1]) <==> CleanAt(batches, b)
  {
    assert batches[..b + 1][..b] == batches[..b];
    NextBatchExactly(batches[..b + 1]);
  }

  lemma {:induction false} CleanRunHolds(batches: seq<seq<Item>>, n: nat)
    requires n <= |batches| && forall b :: 0 <= b < |batches| ==> CleanAt(batches, b)
    ensures HistoriesHold(batches[..n])
  {
    if n > 0 {
      CleanRunHolds(batches, n - 1);
      HoldsNextExactly(batches, n - 1);
    }
  }

  /**
   * In every run, the histories hold after each batch if and only if each batch is clean for the keys stored
   * before it.
   */
  lemma {:induction false} RunKeepsHistoriesExactly(batches: seq<seq<Item>>)
    ensures (forall n :: 0 <= n <= |batches| ==> HistoriesHold(batches[..n])) <==>
            (forall b :: 0 <= b < |batches| ==> CleanAt(batches, b))
  {
    if forall b :: 0 <= b < |batches| ==> CleanAt(batches, b) {
      forall n | 0 <= n <= |batches| ensures HistoriesHold(batches[..n]) { CleanRunHolds(batches, n); }
    }
    if forall n :: 0 <= n <= |batches| ==> HistoriesHold(batches[..n]) {
      forall b | 0 <= b < |batches| ensures CleanAt(batches, b) {
        assert HistoriesHold(batches[..b]) && HistoriesHold(batches[..b + 1]);
        HoldsNextExactly(batches, b);
      }
    }
  }

  /**
   * After any batches that are each of a single source and free of repeated ids, the tables hold for every
   * listing exactly its scraped prices in order, with unique keys, and one price row per scraped item.
   */
  lemma EveryRunKeepsHistories(batches: seq<seq<Item>>)
    requires forall b :: 0 <= b < |batches| ==> SingleSourceWithoutRepeats(batches[b])
    ensures Consistent(TablesAfter(batches))
    ensures StandsFor(TablesAfter(batches), Continued(map[], AllItems(batches)))
    ensures |TablesAfter(batches).prices| == |AllItems(batches)|
  {
    EveryRunIsConsistent(batches);
    RunKeepsHistoriesExactly(batches);
    forall b | 0 <= b < |batches| ensures CleanAt(batches, b) {
      CleanBatch(KeysOf(AllItems(batches[..b])), batches[b]);
    }
    assert HistoriesHold(batches[..|batches|]) && batches[..|batches|] == batches;
  }

  // ----- Inputs on which the histories are lost -----

  lemma {:induction false} MapOfMore(rows: seq<PropertyRow>, row: PropertyRow, data: seq<Item>)
    ensures ExistedRowsMap(rows + [row], data) ==
            if Binds(data, row.key) then ExistedRowsMap(rows, data)[row.key.externalId := row]
            else ExistedRowsMap(rows, data)
  {
    assert (rows + [row])[..|rows|] == rows;
  }

  lemma {:induction false} LoadOfMore(data: seq<Item>, item: Item, m: map<string, PropertyRow>, nextId: nat)
    ensures NewRows(data + [item], m, nextId) == NewRows(data, m, nextId) +
            if item.key.externalId in m then []
            else [PropertyRow(nextId + |NewRows(data, m, nextId)|, item.key, item.price)]
    ensures AddedPrices(data + [item], m) == AddedPrices(data, m) +
            if item.key.externalId in m then [PriceRow(m[item.key.externalId].id, item.price)] else []
  {
    assert (data + [item])[..|data|] == data;
  }

  lemma {:induction false} RunOfMore(batches: seq<seq<Item>>, data: seq<Item>)
    ensures TablesAfter(batches + [data]) == Load(TablesAfter(batches), data)
  {
    assert (batches + [data])[..|batches|] == batches;
  }

  lemma {:induction false} PricesOfMore(prices: seq<PriceRow>, row: PriceRow, id: nat)
    ensures PricesOf(prices + [row], id) == PricesOf(prices, id) + if row.propertyId == id then [row.price] else []
  {
    assert (prices + [row])[..|prices|] == prices;
  }

  /** A new key that comes twice in one batch gets two rows, so the tables stand for no histories. */
  lemma {:induction false} NewKeyTwiceBreaksKey(key: Key, p: Price, q: Price)
    ensures var t := Load(TablesAfter([]), [Item(key, p), Item(key, q)]);
            && t.properties == [PropertyRow(0, key, p), PropertyRow(1, key, q)]
            && forall h :: !StandsFor(t, h)
  {
    LoadOfMore([], Item(key, p), map[], 0);
    LoadOfMore([Item(key, p)], Item(key, q), map[], 0);
    assert [Item(key, p)] + [Item(key, q)] == [Item(key, p), Item(key, q)] && [] + [Item(key, p)] == [Item(key, p)];
    var t := Load(TablesAfter([]), [Item(key, p), Item(key, q)]);
    assert t.properties == [PropertyRow(0, key, p), PropertyRow(1, key, q)];
    assert t.properties[0].key == t.properties[1].key;
  }

  lemma {:induction false} OneNewItem(t: Tables, item: Item)
    requires ExistedRowsMap(t.properties, [item]) == map[]
    ensures Load(t, [item]) ==
            Tables(t.properties + [PropertyRow(t.nextId, item.key, item.price)],
                   t.prices + [PriceRow(t.nextId, item.price)], t.nextId + 1)
  {
    LoadOfMore([], item, map[], t.nextId);
    assert [] + [item] == [item];
    assert FirstPrices([PropertyRow(t.nextId, item.key, item.price)]) == [PriceRow(t.nextId, item.price)];
  }

  lemma {:induction false} OtherKeyIsNew(row: PropertyRow, item: Item)
    requires row.key != item.key
    ensures ExistedRowsMap([row], [item]) == map[]
  {
    MapOfMore([], row, [item]);
    assert [] + [row] == [row];
  }

  /** The tables after two new items. */
  function BothStored(x: Item, y: Item): Tables {
    Tables([PropertyRow(0, x.key, x.price), PropertyRow(1, y.key, y.price)],
           [PriceRow(0, x.price), PriceRow(1, y.price)], 2)
  }

  lemma {:induction false} StoredFirst(x: Item)
    ensures TablesAfter([] + [[x]]) == Tables([PropertyRow(0, x.key, x.price)], [PriceRow(0, x.price)], 1)
  {
    RunOfMore([], [x]);
    OneNewItem(TablesAfter([]), x);
  }

  lemma {:induction false} StoredBoth(batches: seq<seq<Item>>, x: Item, y: Item)
    requires TablesAfter(batches) == Tables([PropertyRow(0, x.key, x.price)], [PriceRow(0, x.price)], 1)
    requires x.key != y.key
    ensures TablesAfter(batches + [[y]]) == BothStored(x, y)
  {
    RunOfMore(batches, [y]);
    OtherKeyIsNew(PropertyRow(0, x.key, x.price), y);
    OneNewItem(TablesAfter(batches), y);
  }

  lemma {:induction false} LastOfTwoStays(first: PropertyRow, last: PropertyRow, data: seq<Item>)
    requires first.key.externalId == last.key.externalId && Binds(data, first.key) && Binds(data, last.key)
    ensures ExistedRowsMap([first, last], data) == map[last.key.externalId := last]
  {
    MapOfMore([], first, data);
    MapOfMore([first], last, data);
    assert [] + [first] == [first] && [first] + [last] == [first, last];
  }

  lemma {:induction false} BothAreAdded(x: Item, y: Item, row: PropertyRow, nextId: nat)
    requires x.key.externalId == y.key.externalId == row.key.externalId
    ensures var m := map[row.key.externalId := row];
            && NewRows([x, y], m, nextId) == []
            && AddedPrices([x, y], m) == [PriceRow(row.id, x.price), PriceRow(row.id, y.price)]
  {
    var m := map[row.key.externalId := row];
    LoadOfMore([], x, m, nextId);
    LoadOfMore([x], y, m, nextId);
    assert [] + [x] == [x] && [x] + [y] == [x, y];
  }

  /**
   * When a run has stored the same external id from two sources, a batch with an item for each adds both prices
   * to the row stored last.
   */
  lemma {:induction false} SharedIdLosesPrice(x: Item, y: Item, r: Price, s: Price)
    requires x.key != y.key && x.key.externalId == y.key.externalId
    ensures var t := TablesAfter([] + [[x]] + [[y]]);
            var u := Load(t, [Item(x.key, r), Item(y.key, s)]);
            && t == BothStored(x, y) && u.properties == t.properties
            && PricesOf(u.prices, 0) == [x.price] && PricesOf(u.prices, 1) == [y.price, r, s]
  {
    StoredFirst(x);
    StoredBoth([] + [[x]], x, y);
    TwoSourcesLoaded(BothStored(x, y), Item(x.key, r), Item(y.key, s));
    FourPricesOf(x.price, y.price, r, s);
  }

  lemma {:induction false} TwoSourcesLoaded(t: Tables, x: Item, y: Item)
    requires |t.properties| == 2 && t.properties[0].key == x.key && t.properties[1].key == y.key
    requires x.key.externalId == y.key.externalId && t.properties[1].id == 1 && |t.prices| == 2
    ensures Load(t, [x, y]).properties == t.properties
    ensures Load(t, [x, y]).prices == [t.prices[0], t.prices[1], PriceRow(1, x.price), PriceRow(1, y.price)]
  {
    assert [x, y][0].key == x.key && [x, y][1].key == y.key;
    LastOfTwoStays(t.properties[0], t.properties[1], [x, y]);
    BothAreAdded(x, y, t.properties[1], t.nextId);
    assert [t.properties[0], t.properties[1]] == t.properties;
  }

  lemma {:induction false} FourPricesOf(p: Price, q: Price, r: Price, s: Price)
    ensures var prices := [PriceRow(0, p), PriceRow(1, q), PriceRow(1, r), PriceRow(1, s)];
            PricesOf(prices, 0) == [p] && PricesOf(prices, 1) == [q, r, s]
  {
    TwoMorePrices([PriceRow(0, p), PriceRow(1, q)], r, s, 0);
    TwoMorePrices([PriceRow(0, p), PriceRow(1, q)], r, s, 1);
    FirstTwoPrices(p, q, 0);
    FirstTwoPrices(p, q, 1);
    assert [PriceRow(0, p), PriceRow(1, q)] + [PriceRow(1, r)] + [PriceRow(1, s)]
        == [PriceRow(0, p), PriceRow(1, q), PriceRow(1, r), PriceRow(1, s)];
  }

  lemma {:induction false} FirstTwoPrices(p: Price, q: Price, id: nat)
    requires id <= 1
    ensures PricesOf([PriceRow(0, p), PriceRow(1, q)], id) == [if id == 0 then p else q]
  {
    PricesOfMore([], PriceRow(0, p), id);
    PricesOfMore([PriceRow(0, p)], PriceRow(1, q), id);
    assert [] + [PriceRow(0, p)] == [PriceRow(0, p)];
    assert [PriceRow(0, p)] + [PriceRow(1, q)] == [PriceRow(0, p), PriceRow(1, q)];
  }

  lemma {:induction false} TwoMorePrices(prices: seq<PriceRow>, r: Price, s: Price, id: nat)
    ensures PricesOf(prices + [PriceRow(1, r)] + [PriceRow(1, s)], id) ==
            PricesOf(prices, id) + if id == 1 then [r, s] else []
  {
    PricesOfMore(prices, PriceRow(1, r), id);
    PricesOfMore(prices + [PriceRow(1, r)], PriceRow(1, s), id);
  }
}
