/** The addressable-event tables: delivery by delivery they keep, for each pubkey and
    non-empty d tag, the events with the greatest created_at. */
module EventStore {
  import opened SelfTransfer
  import opened Separator

  datatype Event = Event(id: string, pubkey: string, createdAt: int, tags: seq<seq<string>>, content: string, sig: string)

  /** A stored row without its id, which is the key of the table. */
  datatype Row<V> = Row(pubkey: string, createdAt: int, dTag: string, body: V)
  datatype Delivery<V> = Delivery(id: string, row: Row<V>)

  datatype NameBody = NameBody(primaryName: string, otherNames: string, content: string, sig: string)
  datatype ConnectionBody = ConnectionBody(content: string, sig: string, tags: seq<seq<string>>)
  datatype MetadataBody = MetadataBody(content: string, sig: string)

  // ----- tags -----

  predicate Named(tag: seq<string>, name: string) {
    |tag| >= 2 && tag[0] == name
  }

  /** The values of all tags of this name, in order; a tag needs a value to count. */
  function TagValues(tags: seq<seq<string>>, name: string): seq<string> {
    if tags == [] then []
    else
      var before, tag := TagValues(tags[..|tags| - 1], name), tags[|tags| - 1];
      if Named(tag, name) then before + [tag[1]] else before
  }

  function FirstOrEmpty(values: seq<string>): string {
    if values == [] then "" else values[0]
  }

  function LastOrEmpty(values: seq<string>): string {
    if values == [] then "" else values[|values| - 1]
  }

  lemma {:induction false} ValuesOfPrefix(tags: seq<seq<string>>, name: string, n: nat)
    requires n <= |tags|
    ensures TagValues(tags[..n], name) <= TagValues(tags, name)
    decreases |tags|
  {
    if n == |tags| {
      assert tags[..n] == tags;
    } else {
      ValuesOfPrefix(tags[..|tags| - 1], name, n);
      assert tags[..|tags| - 1][..n] == tags[..n];
    }
  }

  lemma NoTagValues()
    ensures forall name :: TagValues([], name) == []
  {
  }

  lemma {:induction false} NextTagValues(tags: seq<seq<string>>, name: string, i: nat)
    requires i < |tags|
    ensures TagValues(tags[..i + 1], name)
         == if Named(tags[i], name) then TagValues(tags[..i], name) + [tags[i][1]] else TagValues(tags[..i], name)
  {
    assert tags[..i + 1][..i] == tags[..i];
  }

  method FirstTag(tags: seq<seq<string>>, name: string) returns (value: string)
    ensures value == FirstOrEmpty(TagValues(tags, name))
  {
    value := "";
    for i := 0 to |tags|
      invariant value == "" && TagValues(tags[..i], name) == []
    {
      assert tags[..i + 1][..i] == tags[..i];
      if |tags[i]| >= 2 && tags[i][0] == name {
        value := tags[i][1];
        ValuesOfPrefix(tags, name, i + 1);
        assert TagValues(tags[..i + 1], name) == [value];
        return;
      }
    }
    assert tags[..|tags|] == tags;
  }

  lemma {:induction false} TagValuesOfSum(a: seq<seq<string>>, b: seq<seq<string>>, name: string)
    ensures TagValues(a + b, name) == TagValues(a, name) + TagValues(b, name)
  {
    if b == [] {
      assert a + b == a;
    } else {
      var n := |b| - 1;
      TagValuesOfSum(a, b[..n], name);
      assert (a + b)[..|a + b| - 1] == a + b[..n];
    }
  }

  /** A tag counts if it has this name and a value; with TagValuesOfSum this says what the
      values of any tags are. */
  lemma {:induction false} ValuesOfOneTag(tag: seq<string>, name: string)
    ensures TagValues([tag], name) == if |tag| >= 2 && tag[0] == name then [tag[1]] else []
  {
    assert [tag][..0] == [];
  }

  ghost predicate Tagged(tags: seq<seq<string>>, name: string, k: nat, value: string) {
    k < |tags| && |tags[k]| >= 2 && tags[k][0] == name && tags[k][1] == value
  }

  ghost predicate Untagged(tags: seq<seq<string>>, name: string, i: nat, j: nat) {
    forall k :: i <= k < j && k < |tags| && |tags[k]| >= 2 ==> tags[k][0] != name
  }

  /** The value of the first tag of this name, or of the last. */
  ghost predicate FirstTagged(tags: seq<seq<string>>, name: string, value: string) {
    exists k: nat :: Tagged(tags, name, k, value) && Untagged(tags, name, 0, k)
  }

  ghost predicate LastTagged(tags: seq<seq<string>>, name: string, value: string) {
    exists k: nat :: Tagged(tags, name, k, value) && Untagged(tags, name, k + 1, |tags|)
  }

  lemma {:induction false} NoValues(tags: seq<seq<string>>, name: string)
    requires Untagged(tags, name, 0, |tags|)
    ensures TagValues(tags, name) == []
  {
    if tags != [] {
      var n := |tags| - 1;
      assert forall k :: 0 <= k < n ==> tags[..n][k] == tags[k];
      NoValues(tags[..n], name);
    }
  }

  lemma {:induction false} FirstAndLast(tags: seq<seq<string>>, name: string, value: string)
    ensures FirstTagged(tags, name, value) ==> FirstOrEmpty(TagValues(tags, name)) == value
    ensures LastTagged(tags, name, value) ==> LastOrEmpty(TagValues(tags, name)) == value
  {
    hide TagValues, Untagged;
    if k: nat :| Tagged(tags, name, k, value) && Untagged(tags, name, 0, k) {
      ValuesAround(tags, name, k);
      NoValuesBefore(tags, name, k);
    }
    if k: nat :| Tagged(tags, name, k, value) && Untagged(tags, name, k + 1, |tags|) {
      ValuesAround(tags, name, k);
      NoValuesFrom(tags, name, k + 1);
    }
  }

  lemma {:induction false} NoValuesBefore(tags: seq<seq<string>>, name: string, k: nat)
    requires k <= |tags| && Untagged(tags, name, 0, k)
    ensures TagValues(tags[..k], name) == []
  {
    assert forall j :: 0 <= j < k ==> tags[..k][j] == tags[j];
    NoValues(tags[..k], name);
  }

  lemma {:induction false} NoValuesFrom(tags: seq<seq<string>>, name: string, k: nat)
    requires k <= |tags| && Untagged(tags, name, k, |tags|)
    ensures TagValues(tags[k..], name) == []
  {
    var rest := tags[k..];
    forall j | 0 <= j < |rest| && |rest[j]| >= 2 ensures rest[j][0] != name {
      assert rest[j] == tags[k + j];
    }
    NoValues(rest, name);
  }

  lemma {:induction false} ValuesAround(tags: seq<seq<string>>, name: string, k: nat)
    requires k < |tags|
    ensures TagValues(tags, name) == TagValues(tags[..k], name) + TagValues([tags[k]], name) + TagValues(tags[k + 1..], name)
    ensures TagValues([tags[k]], name) == if |tags[k]| >= 2 && tags[k][0] == name then [tags[k][1]] else []
  {
    ValuesOfOneTag(tags[k], name);
    TagValuesOfSum(tags[..k], [tags[k]], name);
    TagValuesOfSum(tags[..k] + [tags[k]], tags[k + 1..], name);
    assert tags == tags[..k] + [tags[k]] + tags[k + 1..];
  }

  function LowerAll(names: seq<string>): seq<string> {
    seq(|names|, i requires 0 <= i < |names| => ToLower(names[i]))
  }

  /** The names as a JSON array; nothing is escaped. */
  function JsonArray(names: seq<string>): string {
    if names == [] then "[]" else "[\"" + Quoted(names) + "]"
  }

  function Quoted(names: seq<string>): string
    requires names != []
  {
    if |names| == 1 then names[0] + "\""
    else Quoted(names[..|names| - 1]) + ",\"" + names[|names| - 1] + "\""
  }

  ghost predicate QuoteFree(names: seq<string>) {
    forall i :: 0 <= i < |names| ==> '"' !in names[i]
  }

  lemma {:induction false} QuotedDetermines(a: seq<string>, b: seq<string>)
    requires a != [] && b != [] && QuoteFree(a) && QuoteFree(b) && Quoted(a) == Quoted(b)
    ensures a == b
    decreases |a|
  {
    var m, n := |a| - 1, |b| - 1;
    assert a == a[..m] + [a[m]] && b == b[..n] + [b[n]];
    var p := if m == 0 then a[0] else Quoted(a[..m]) + ",\"" + a[m];
    var q := if n == 0 then b[0] else Quoted(b[..n]) + ",\"" + b[n];
    assert p + ['"'] + [] == Quoted(a) && q + ['"'] + [] == Quoted(b);
    LastSeparatorSplits(p, q, '"', [], []);
    if m > 0 && n > 0 {
      assert p == (Quoted(a[..m]) + ",") + ['"'] + a[m] && q == (Quoted(b[..n]) + ",") + ['"'] + b[n];
      LastSeparatorSplits(Quoted(a[..m]) + ",", Quoted(b[..n]) + ",", '"', a[m], b[n]);
      assert Quoted(a[..m]) == (Quoted(a[..m]) + ",")[..|Quoted(a[..m])|];
      assert Quoted(b[..n]) == (Quoted(b[..n]) + ",")[..|Quoted(b[..n])|];
      QuotedDetermines(a[..m], b[..n]);
    } else if m > 0 {
      QuoteInside(Quoted(a[..m]), a[m]);
    } else if n > 0 {
      QuoteInside(Quoted(b[..n]), b[n]);
    }
  }

  lemma QuoteInside(head: string, name: string)
    ensures '"' in head + ",\"" + name
  {
    assert (head + ",\"" + name)[|head| + 1] == '"';
  }

  lemma SecondCharTells(names: seq<string>)
    ensures |JsonArray(names)| >= 2 && (JsonArray(names)[1] == ']' <==> names == [])
  {
  }

  /** Names without quotes can be read back from the stored text ... */
  lemma JsonDeterminesQuoteFreeNames(a: seq<string>, b: seq<string>)
    requires QuoteFree(a) && QuoteFree(b) && JsonArray(a) == JsonArray(b)
    ensures a == b
  {
    SecondCharTells(a);
    SecondCharTells(b);
    if a != [] {
      var x, y := JsonArray(a), JsonArray(b);
      assert Quoted(a) == x[2..|x| - 1] == y[2..|y| - 1] == Quoted(b);
      QuotedDetermines(a, b);
    }
  }

  /** ... but a name with quotes can pass for several. */
  lemma QuotedNamesCollide(names: seq<string>, x: string, y: string)
    ensures JsonArray(names + [x + "\",\"" + y]) == JsonArray(names + [x, y])
  {
    hide Quoted;
    assert names + [x, y] == (names + [x]) + [y];
    QuotedOneMore(names, x + "\",\"" + y);
    QuotedOneMore(names + [x], y);
    QuotedOneMore(names, x);
    RegroupQuoted(if names == [] then "" else Quoted(names) + ",\"", x, y);
  }

  lemma {:induction false} QuotedOneMore(names: seq<string>, x: string)
    ensures Quoted(names + [x]) == (if names == [] then "" else Quoted(names) + ",\"") + x + "\""
  {
    assert (names + [x])[..|names|] == names;
  }

  lemma RegroupQuoted(head: string, x: string, y: string)
    ensures head + (x + "\",\"" + y) + "\"" == ((head + x + "\"") + ",\"") + y + "\""
  {
  }

  /** One name or none; QuotedNamesCollide reduces longer lists to these. */
  lemma JsonOfOne(x: string)
    ensures JsonArray([]) == "[]" && JsonArray([x]) == "[\"" + x + "\"]"
  {
  }

  method JoinNames(names: seq<string>) returns (json: string)
    ensures json == JsonArray(names)
  {
    json := "[]";
    if |names| > 0 {
      json := "[\"" + names[0] + "\"";
      assert names[..1] == [names[0]];
      for i := 1 to |names|
        invariant json == "[\"" + Quoted(names[..i])
      {
        assert names[..i + 1][..i] == names[..i];
        json := json + ",\"" + names[i] + "\"";
      }
      assert names[..|names|] == names;
      json := json + "]";
    }
  }

  // ----- rows -----

  /** A name event is filed under its last d tag ... */
  function NameRow(e: Event): Row<NameBody> {
    Row(e.pubkey, e.createdAt, LastOrEmpty(TagValues(e.tags, "d")),
        NameBody(ToLower(LastOrEmpty(TagValues(e.tags, "n"))), JsonArray(LowerAll(TagValues(e.tags, "o"))), e.content, e.sig))
  }

  /** ... the others under their first. */
  function ConnectionRow(e: Event): Row<ConnectionBody> {
    Row(e.pubkey, e.createdAt, FirstOrEmpty(TagValues(e.tags, "d")), ConnectionBody(e.content, e.sig, e.tags))
  }

  function MetadataRow(e: Event): Row<MetadataBody> {
    Row(e.pubkey, e.createdAt, FirstOrEmpty(TagValues(e.tags, "d")), MetadataBody(e.content, e.sig))
  }

  // ----- one delivery -----

  predicate SameKey<V>(a: Row<V>, b: Row<V>) {
    a.dTag != "" && a.pubkey == b.pubkey && a.dTag == b.dTag
  }

  /** b replaces a. */
  predicate Supersedes<V>(b: Row<V>, a: Row<V>) {
    SameKey(a, b) && b.createdAt > a.createdAt
  }

  function Deliver<V>(t: map<string, Row<V>>, d: Delivery<V>): map<string, Row<V>> {
    if d.id in t || (exists k :: k in t && Supersedes(t[k], d.row)) then t
    else (map k | k in t && !Supersedes(d.row, t[k]) :: t[k])[d.id := d.row]
  }

  /** What the three Store functions have in common, statement by statement. */
  method StoreRow<V(==)>(t: map<string, Row<V>>, id: string, row: Row<V>) returns (t': map<string, Row<V>>)
    ensures t' == Deliver(t, Delivery(id, row))
  {
    t' := t;
    if id in t {
      return;
    }
    if row.dTag != "" {
      if exists k :: k in t && t[k].pubkey == row.pubkey && t[k].dTag == row.dTag && t[k].createdAt > row.createdAt {
        return;
      }
      t' := map k | k in t && !(t[k].pubkey == row.pubkey && t[k].dTag == row.dTag && t[k].createdAt < row.createdAt) :: t[k];
    }
    t' := t'[id := row];
  }

  class EventDatabase {
    var names: map<string, Row<NameBody>>
    var connections: map<string, Row<ConnectionBody>>
    var metadata: map<string, Row<MetadataBody>>

    constructor ()
      ensures names == map[] && connections == map[] && metadata == map[]
    {
      names, connections, metadata := map[], map[], map[];
    }

    method StoreNameEvent(e: Event)
      modifies this`names
      ensures names == Deliver(old(names), Delivery(e.id, NameRow(e)))
    {
      hide TagValues, JsonArray, Deliver;
      var dTag, primaryName, otherNames := "", "", [];
      NoTagValues();
      for i := 0 to |e.tags|
        invariant names == old(names)
        invariant dTag == LastOrEmpty(TagValues(e.tags[..i], "d"))
        invariant primaryName == ToLower(LastOrEmpty(TagValues(e.tags[..i], "n")))
        invariant otherNames == LowerAll(TagValues(e.tags[..i], "o"))
      {
        var tag := e.tags[i];
        NextTagValues(e.tags, "d", i);
        NextTagValues(e.tags, "n", i);
        NextTagValues(e.tags, "o", i);
        if |tag| >= 2 {
          if tag[0] == "d" {
            dTag := tag[1];
          } else if tag[0] == "n" {
            primaryName := ToLower(tag[1]);
          } else if tag[0] == "o" {
            otherNames := otherNames + [ToLower(tag[1])];
          }
        }
      }
      assert e.tags[..|e.tags|] == e.tags;
      var json := JoinNames(otherNames);
      var row := Row(e.pubkey, e.createdAt, dTag, NameBody(primaryName, json, e.content, e.sig));
      assert row == NameRow(e);
      names := StoreRow(names, e.id, row);
    }

    method StoreConnectionEvent(e: Event)
      modifies this`connections
      ensures connections == Deliver(old(connections), Delivery(e.id, ConnectionRow(e)))
    {
      var dTag := FirstTag(e.tags, "d");
      connections := StoreRow(connections, e.id, Row(e.pubkey, e.createdAt, dTag, ConnectionBody(e.content, e.sig, e.tags)));
    }

    method StoreMetadataEvent(e: Event)
      modifies this`metadata
      ensures metadata == Deliver(old(metadata), Delivery(e.id, MetadataRow(e)))
    {
      var dTag := FirstTag(e.tags, "d");
      metadata := StoreRow(metadata, e.id, Row(e.pubkey, e.createdAt, dTag, MetadataBody(e.content, e.sig)));
    }
  }

  // ----- whole histories -----

  function Table<V>(ds: seq<Delivery<V>>): map<string, Row<V>> {
    if ds == [] then map[] else Deliver(Table(ds[..|ds| - 1]), ds[|ds| - 1])
  }

  /** No two different deliveries share an id. */
  ghost predicate IdsIdentify<V>(ds: seq<Delivery<V>>) {
    forall i, j :: 0 <= i < |ds| && 0 <= j < |ds| && ds[i].id == ds[j].id ==> ds[i] == ds[j]
  }

  /** No delivery replaces this row. */
  ghost predicate Newest<V(!new)>(ds: seq<Delivery<V>>, row: Row<V>) {
    forall i :: 0 <= i < |ds| ==> !Supersedes(ds[i].row, row)
  }

  /** Delivered and not superseded by anything delivered. */
  ghost predicate Survives<V(!new)>(ds: seq<Delivery<V>>, d: Delivery<V>) {
    d in ds && Newest(ds, d.row)
  }

  ghost predicate HoldsSurvivors<V(!new)>(ds: seq<Delivery<V>>, t: map<string, Row<V>>) {
    && (forall id :: id in t ==> Survives(ds, Delivery(id, t[id])))
    && (forall d :: Survives(ds, d) ==> d.id in t)
  }

  /** Something superseded is superseded by a survivor. */
  lemma {:induction false} SupersededBySurvivor<V(!new)>(ds: seq<Delivery<V>>, row: Row<V>, i: nat, bound: int) returns (k: nat)
    requires i < |ds| && Supersedes(ds[i].row, row)
    requires forall j :: 0 <= j < |ds| ==> ds[j].row.createdAt <= bound
    ensures k < |ds| && Supersedes(ds[k].row, row) && Survives(ds, ds[k])
    decreases bound - ds[i].row.createdAt
  {
    if j :| 0 <= j < |ds| && Supersedes(ds[j].row, ds[i].row) {
      k := SupersededBySurvivor(ds, row, j, bound);
    } else {
      k := i;
    }
  }

  lemma {:induction false} Bounded<V>(ds: seq<Delivery<V>>) returns (bound: int)
    ensures forall j :: 0 <= j < |ds| ==> ds[j].row.createdAt <= bound
  {
    if ds == [] {
      bound := 0;
    } else {
      var n := |ds| - 1;
      bound := Bounded(ds[..n]);
      if bound < ds[n].row.createdAt {
        bound := ds[n].row.createdAt;
      }
      assert forall j :: 0 <= j < n ==> ds[..n][j] == ds[j];
    }
  }

  /** A row is superseded by something stored exactly when by something delivered. */
  lemma StoredTellsNewest<V(!new)>(ds: seq<Delivery<V>>, t: map<string, Row<V>>, row: Row<V>)
    requires IdsIdentify(ds) && HoldsSurvivors(ds, t)
    ensures (exists k :: k in t && Supersedes(t[k], row)) <==> !Newest(ds, row)
  {
    if k :| k in t && Supersedes(t[k], row) {
      assert Survives(ds, Delivery(k, t[k]));
      var i :| 0 <= i < |ds| && ds[i] == Delivery(k, t[k]);
      assert Supersedes(ds[i].row, row);
    }
    if !Newest(ds, row) {
      var i :| 0 <= i < |ds| && Supersedes(ds[i].row, row);
      var bound := Bounded(ds);
      var k := SupersededBySurvivor(ds, row, i, bound);
      StoredAs(ds, t, ds[k]);
    }
  }

  lemma StoredAs<V(!new)>(ds: seq<Delivery<V>>, t: map<string, Row<V>>, d: Delivery<V>)
    requires IdsIdentify(ds) && HoldsSurvivors(ds, t) && Survives(ds, d)
    ensures d.id in t && t[d.id] == d.row
  {
    assert Survives(ds, Delivery(d.id, t[d.id]));
  }

  lemma NewestOneMore<V(!new)>(ds: seq<Delivery<V>>, d: Delivery<V>, row: Row<V>)
    ensures Newest(ds + [d], row) <==> Newest(ds, row) && !Supersedes(d.row, row)
  {
    var es := ds + [d];
    assert forall i :: 0 <= i < |ds| ==> es[i] == ds[i];
    assert es[|ds|] == d;
  }

  lemma SurvivesOneMore<V(!new)>(ds: seq<Delivery<V>>, d: Delivery<V>, x: Delivery<V>)
    ensures Survives(ds + [d], x) <==> (x in ds || x == d) && Newest(ds, x.row) && !Supersedes(d.row, x.row)
  {
    NewestOneMore(ds, d, x.row);
    assert x in ds + [d] <==> x in ds || x == d;
  }

  /** A delivery that changes nothing changes no survivor either. */
  lemma SkippedStep<V(!new)>(ds: seq<Delivery<V>>, t: map<string, Row<V>>, d: Delivery<V>, x: Delivery<V>)
    requires IdsIdentify(ds + [d]) && HoldsSurvivors(ds, t)
    requires d.id in t || !Newest(ds, d.row)
    ensures Survives(ds + [d], x) <==> Survives(ds, x)
  {
    SurvivesOneMore(ds, d, x);
    if d.id in t {
      assert Survives(ds, Delivery(d.id, t[d.id]));
      SameIdSame(ds, d, Delivery(d.id, t[d.id]));
      var i :| 0 <= i < |ds| && ds[i] == d;
    } else {
      var i :| 0 <= i < |ds| && Supersedes(ds[i].row, d.row);
      if Supersedes(d.row, x.row) {
        assert Supersedes(ds[i].row, x.row);
      }
    }
  }

  lemma SameIdSame<V>(ds: seq<Delivery<V>>, d: Delivery<V>, x: Delivery<V>)
    requires IdsIdentify(ds + [d]) && x in ds && x.id == d.id
    ensures x == d
  {
    var i :| 0 <= i < |ds| && ds[i] == x;
    assert (ds + [d])[i] == x && (ds + [d])[|ds|] == d;
  }

  lemma IdentifyPrefix<V>(ds: seq<Delivery<V>>, d: Delivery<V>)
    requires IdsIdentify(ds + [d])
    ensures IdsIdentify(ds)
  {
    assert forall i :: 0 <= i < |ds| ==> (ds + [d])[i] == ds[i];
  }

  lemma StoredStep<V(!new)>(ds: seq<Delivery<V>>, t: map<string, Row<V>>, d: Delivery<V>)
    requires IdsIdentify(ds + [d]) && HoldsSurvivors(ds, t)
    requires d.id !in t && Newest(ds, d.row)
    ensures HoldsSurvivors(ds + [d], (map k | k in t && !Supersedes(d.row, t[k]) :: t[k])[d.id := d.row])
  {
    var es := ds + [d];
    var t' := (map k | k in t && !Supersedes(d.row, t[k]) :: t[k])[d.id := d.row];
    forall id | id in t' ensures Survives(es, Delivery(id, t'[id])) {
      SurvivesOneMore(ds, d, Delivery(id, t'[id]));
      if id != d.id {
        assert Survives(ds, Delivery(id, t[id]));
      }
    }
    IdentifyPrefix(ds, d);
    forall x | Survives(es, x) ensures x.id in t' {
      SurvivesOneMore(ds, d, x);
      if x.id != d.id {
        assert Survives(ds, x);
        StoredAs(ds, t, x);
      }
    }
  }

  lemma DeliverStep<V(!new)>(ds: seq<Delivery<V>>, t: map<string, Row<V>>, d: Delivery<V>)
    requires IdsIdentify(ds + [d]) && HoldsSurvivors(ds, t)
    ensures HoldsSurvivors(ds + [d], Deliver(t, d))
  {
    IdentifyPrefix(ds, d);
    StoredTellsNewest(ds, t, d.row);
    if d.id in t || !Newest(ds, d.row) {
      forall x ensures Survives(ds + [d], x) <==> Survives(ds, x) {
        SkippedStep(ds, t, d, x);
      }
    } else {
      StoredStep(ds, t, d);
    }
  }

  /** Whatever the order and however often delivered: the table holds exactly the events
      that nothing delivered supersedes. */
  lemma {:induction false} TableHoldsSurvivors<V(!new)>(ds: seq<Delivery<V>>)
    requires IdsIdentify(ds)
    ensures HoldsSurvivors(ds, Table(ds))
  {
    if ds != [] {
      var n := |ds| - 1;
      var before, d := ds[..n], ds[n];
      assert before + [d] == ds;
      IdentifyPrefix(before, d);
      TableHoldsSurvivors(before);
      DeliverStep(before, Table(before), d);
    }
  }

  /** Two nodes that received the same events hold the same table. */
  lemma {:induction false} SameEventsSameTable<V(!new)>(ds: seq<Delivery<V>>, es: seq<Delivery<V>>)
    requires IdsIdentify(ds) && IdsIdentify(es) && forall d :: d in ds <==> d in es
    ensures Table(ds) == Table(es)
  {
    hide Table;
    TableHoldsSurvivors(ds);
    TableHoldsSurvivors(es);
    SameSurvivors(ds, es, Table(es));
    SurvivorsDetermine(ds, Table(ds), Table(es));
  }

  lemma SurvivorsDetermine<V(!new)>(ds: seq<Delivery<V>>, t: map<string, Row<V>>, u: map<string, Row<V>>)
    requires IdsIdentify(ds) && HoldsSurvivors(ds, t) && HoldsSurvivors(ds, u)
    ensures t == u
  {
    forall id | id in t ensures id in u && u[id] == t[id] {
      StoredAs(ds, u, Delivery(id, t[id]));
    }
    forall id | id in u ensures id in t {
      StoredAs(ds, t, Delivery(id, u[id]));
    }
  }

  lemma SameSurvivors<V(!new)>(ds: seq<Delivery<V>>, es: seq<Delivery<V>>, t: map<string, Row<V>>)
    requires HoldsSurvivors(es, t) && forall d :: d in ds <==> d in es
    ensures HoldsSurvivors(ds, t)
  {
    forall d ensures Survives(ds, d) <==> Survives(es, d) {
      if Newest(ds, d.row) { SameNewest(ds, es, d.row); }
      if Newest(es, d.row) { SameNewest(es, ds, d.row); }
    }
  }

  lemma SameNewest<V(!new)>(ds: seq<Delivery<V>>, es: seq<Delivery<V>>, row: Row<V>)
    requires Newest(ds, row) && forall d :: d in es ==> d in ds
    ensures Newest(es, row)
  {
    forall i | 0 <= i < |es| ensures !Supersedes(es[i].row, row) {
      assert es[i] in ds;
      var j :| 0 <= j < |ds| && ds[j] == es[i];
    }
  }

  /** A delivered event is in the table exactly when it has no d tag to be filed under, or
      nothing delivered by the same author under the same d tag is later: rows of one key are
      ties. */
  lemma {:induction false} KeyHoldsGreatest<V(!new)>(ds: seq<Delivery<V>>, d: Delivery<V>)
    requires IdsIdentify(ds) && d in ds
    ensures d.id in Table(ds)
       <==> d.row.dTag == "" || forall i :: 0 <= i < |ds| && ds[i].row.pubkey == d.row.pubkey && ds[i].row.dTag == d.row.dTag ==>
                                  ds[i].row.createdAt <= d.row.createdAt
  {
    TableHoldsSurvivors(ds);
    NewestExactly(ds, d.row);
    var t := Table(ds);
    if d.id in t {
      assert Survives(ds, Delivery(d.id, t[d.id]));
      var i :| 0 <= i < |ds| && ds[i] == d;
      var j :| 0 <= j < |ds| && ds[j] == Delivery(d.id, t[d.id]);
      assert ds[i] == ds[j];
    } else {
      assert !Survives(ds, d);
    }
  }

  lemma NewestExactly<V(!new)>(ds: seq<Delivery<V>>, row: Row<V>)
    ensures Newest(ds, row)
       <==> row.dTag == "" || forall i :: 0 <= i < |ds| && ds[i].row.pubkey == row.pubkey && ds[i].row.dTag == row.dTag ==>
                                ds[i].row.createdAt <= row.createdAt
  {
    forall i | 0 <= i < |ds|
      ensures Supersedes(ds[i].row, row)
         <==> row.dTag != "" && ds[i].row.pubkey == row.pubkey && ds[i].row.dTag == row.dTag && row.createdAt < ds[i].row.createdAt
    {}
  }

  /** Of two events of one author, the newer removes the older exactly when both are filed
      under one non-empty d tag, whichever comes first. */
  lemma NewerReplaces<V(!new)>(a: Delivery<V>, b: Delivery<V>)
    requires a.id != b.id && a.row.pubkey == b.row.pubkey && a.row.createdAt < b.row.createdAt
    ensures a.id !in Table([a, b]) <==> a.row.dTag != "" && a.row.dTag == b.row.dTag
    ensures Table([b, a]) == Table([a, b])
  {
    var ds := [a, b];
    assert forall d :: d in ds <==> d in [b, a];
    SameEventsSameTable([b, a], ds);
    TableHoldsSurvivors(ds);
    if a.id in Table(ds) {
      assert Survives(ds, Delivery(a.id, Table(ds)[a.id]));
      assert !Supersedes(ds[1].row, a.row);
    } else {
      assert ds[0] == a && !Survives(ds, a);
    }
  }

  /** An author who adds a second d tag and keeps the first updates connections and metadata
      but leaves the old name in place: the newer name event replaces the older exactly when
      the last d tags agree. */
  lemma ChangedLastTagKeepsOldName(a: Event, b: Event)
    requires a.id != b.id && a.pubkey == b.pubkey && a.createdAt < b.createdAt
    requires FirstOrEmpty(TagValues(a.tags, "d")) == FirstOrEmpty(TagValues(b.tags, "d")) != ""
    ensures a.id !in Table([Delivery(a.id, ConnectionRow(a)), Delivery(b.id, ConnectionRow(b))])
    ensures a.id !in Table([Delivery(a.id, MetadataRow(a)), Delivery(b.id, MetadataRow(b))])
    ensures a.id !in Table([Delivery(a.id, NameRow(a)), Delivery(b.id, NameRow(b))])
       <==> LastOrEmpty(TagValues(a.tags, "d")) != "" && LastOrEmpty(TagValues(a.tags, "d")) == LastOrEmpty(TagValues(b.tags, "d"))
  {
    NewerReplaces(Delivery(a.id, ConnectionRow(a)), Delivery(b.id, ConnectionRow(b)));
    NewerReplaces(Delivery(a.id, MetadataRow(a)), Delivery(b.id, MetadataRow(b)));
    NewerReplaces(Delivery(a.id, NameRow(a)), Delivery(b.id, NameRow(b)));
  }

  // ----- what the stored rows say -----

  /** The events of a history, each with the row a table would store for it. */
  function Deliveries<V>(es: seq<Event>, rowOf: Event -> Row<V>): seq<Delivery<V>> {
    seq(|es|, i requires 0 <= i < |es| => Delivery(es[i].id, rowOf(es[i])))
  }

  ghost predicate EventIdsIdentify(es: seq<Event>) {
    forall i, j :: 0 <= i < |es| && 0 <= j < |es| && es[i].id == es[j].id ==> es[i] == es[j]
  }

  lemma RowIsOfEvent<V(!new)>(es: seq<Event>, rowOf: Event -> Row<V>, id: string) returns (i: nat)
    requires EventIdsIdentify(es) && id in Table(Deliveries(es, rowOf))
    ensures i < |es| && es[i].id == id && Table(Deliveries(es, rowOf))[id] == rowOf(es[i])
  {
    var ds := Deliveries(es, rowOf);
    TableHoldsSurvivors(ds);
    assert Survives(ds, Delivery(id, Table(ds)[id]));
    i :| 0 <= i < |ds| && ds[i] == Delivery(id, Table(ds)[id]);
  }

  /** A stored name row is that of a received event: its author, time, content and signature
      are the event's, it is filed under the event's last d tag, and it names the last n tag
      and all o tags in lower case. */
  lemma NameRowsTellEvents(es: seq<Event>, id: string) returns (e: Event)
    requires EventIdsIdentify(es) && id in Table(Deliveries(es, NameRow))
    ensures e in es && e.id == id
    ensures var row := Table(Deliveries(es, NameRow))[id];
      && row.pubkey == e.pubkey && row.createdAt == e.createdAt
      && row.body.content == e.content && row.body.sig == e.sig
      && (forall v :: LastTagged(e.tags, "d", v) ==> row.dTag == v)
      && (forall v :: LastTagged(e.tags, "n", v) ==> row.body.primaryName == ToLower(v))
      && row.body.otherNames == JsonArray(LowerAll(TagValues(e.tags, "o")))
  {
    var i := RowIsOfEvent(es, NameRow, id);
    e := es[i];
    forall v ensures LastTagged(e.tags, "d", v) ==> LastOrEmpty(TagValues(e.tags, "d")) == v
      ensures LastTagged(e.tags, "n", v) ==> LastOrEmpty(TagValues(e.tags, "n")) == v
    {
      FirstAndLast(e.tags, "d", v);
      FirstAndLast(e.tags, "n", v);
    }
  }

  /** A stored connection row likewise, under the first d tag and with all tags. */
  lemma ConnectionRowsTellEvents(es: seq<Event>, id: string) returns (e: Event)
    requires EventIdsIdentify(es) && id in Table(Deliveries(es, ConnectionRow))
    ensures e in es && e.id == id
    ensures var row := Table(Deliveries(es, ConnectionRow))[id];
      && row.pubkey == e.pubkey && row.createdAt == e.createdAt
      && row.body.content == e.content && row.body.sig == e.sig && row.body.tags == e.tags
      && (forall v :: FirstTagged(e.tags, "d", v) ==> row.dTag == v)
  {
    var i := RowIsOfEvent(es, ConnectionRow, id);
    e := es[i];
    forall v ensures FirstTagged(e.tags, "d", v) ==> FirstOrEmpty(TagValues(e.tags, "d")) == v {
      FirstAndLast(e.tags, "d", v);
    }
  }

  /** And a stored metadata row, under the first d tag. */
  lemma MetadataRowsTellEvents(es: seq<Event>, id: string) returns (e: Event)
    requires EventIdsIdentify(es) && id in Table(Deliveries(es, MetadataRow))
    ensures e in es && e.id == id
    ensures var row := Table(Deliveries(es, MetadataRow))[id];
      && row.pubkey == e.pubkey && row.createdAt == e.createdAt
      && row.body.content == e.content && row.body.sig == e.sig
      && (forall v :: FirstTagged(e.tags, "d", v) ==> row.dTag == v)
  {
    var i := RowIsOfEvent(es, MetadataRow, id);
    e := es[i];
    forall v ensures FirstTagged(e.tags, "d", v) ==> FirstOrEmpty(TagValues(e.tags, "d")) == v {
      FirstAndLast(e.tags, "d", v);
    }
  }
}
