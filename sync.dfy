/**
 * Bootstrap synchronisation (`internal/sync`): the flat list of remote
 * records is grouped into top-level items holding their attachments, in
 * any arrival order, and replaces the stored library.
 */
module Sync {
  import opened Wrappers
  import opened Records
  import opened Store
  import opened Zotero

  /** A record with a parent reference is an attachment of that parent. */
  predicate IsAttachment(r: RemoteItem)
  {
    r.data.parentKey != ""
  }

  /** The library key a record is filed under: its parent's for an attachment, its own otherwise. */
  function GroupKey(r: RemoteItem): string
  {
    if IsAttachment(r) then r.data.parentKey else r.key
  }

  /** The attachment entry made from an attachment record. */
  function AttachmentOf(r: RemoteItem): Attachment
  {
    Attachment(r.key, r.version, r.data.contentType, r.data.filename)
  }

  /** The item made from a top-level record with the given attachments; the item type is not copied. */
  function ItemOf(r: RemoteItem, attachments: seq<Attachment>): Item
  {
    Item(r.key, r.version, r.data.title, r.data.abstractNote, "", r.data.creators, attachments)
  }

  /**
   * The entry made for a parent not seen yet: nothing but its attachments.
   * Go's zero item has nil creators, which serialise as `null` rather than
   * `[]`; without JSON the two are the same empty list.
   */
  function Placeholder(attachments: seq<Attachment>): Item
  {
    Item("", 0, "", "", "", [], attachments)
  }

  /** The attachments gathered under `k` so far. */
  function Gathered(byKey: map<string, Item>, k: string): seq<Attachment>
  {
    if k in byKey then byKey[k].attachments else []
  }

  /**
   * One turn of the grouping loop: file record `r` into `byKey`. Only the
   * entry under the record's key changes; it keeps the attachments
   * gathered so far, an attachment record adding its own at the end.
   */
  function Step(byKey: map<string, Item>, r: RemoteItem): (m: map<string, Item>)
    ensures m.Keys == byKey.Keys + {GroupKey(r)}
    ensures forall k :: k in byKey && k != GroupKey(r) ==> m[k] == byKey[k]
    ensures m[GroupKey(r)].attachments ==
      Gathered(byKey, GroupKey(r)) + (if IsAttachment(r) then [AttachmentOf(r)] else [])
  {
    if IsAttachment(r) then
      var parent := r.data.parentKey;
      if parent in byKey then byKey[parent := byKey[parent].(attachments := byKey[parent].attachments + [AttachmentOf(r)])]
      else byKey[parent := Placeholder([AttachmentOf(r)])]
    else if r.key in byKey then byKey[r.key := ItemOf(r, byKey[r.key].attachments)]
    else byKey[r.key := ItemOf(r, [])]
  }

  /** The map the grouping loop builds: `Step` applied to the records from first to last. */
  function Group(records: seq<RemoteItem>): (m: map<string, Item>)
    ensures m.Keys == GroupKeys(records)
  {
    if records == [] then map[] else Step(Group(records[..|records| - 1]), records[|records| - 1])
  }

  // An independent description of the same map, key by key.

  /** The keys records are filed under. */
  function GroupKeys(records: seq<RemoteItem>): set<string>
  {
    if records == [] then {} else GroupKeys(records[..|records| - 1]) + {GroupKey(records[|records| - 1])}
  }

  /** The attachments of parent `k`, in the order their records arrive. */
  function AttachmentsFor(records: seq<RemoteItem>, k: string): seq<Attachment>
  {
    if records == [] then []
    else
      var r := records[|records| - 1];
      AttachmentsFor(records[..|records| - 1], k) + (if IsAttachment(r) && r.data.parentKey == k then [AttachmentOf(r)] else [])
  }

  /** The last top-level record with key `k`, if there is one. */
  function LastTopLevel(records: seq<RemoteItem>, k: string): (r: Option<RemoteItem>)
    ensures r.Some? ==> !IsAttachment(r.value) && r.value.key == k
  {
    if records == [] then None
    else
      var r := records[|records| - 1];
      if !IsAttachment(r) && r.key == k then Some(r) else LastTopLevel(records[..|records| - 1], k)
  }

  /** What the library should hold under `k`. */
  function Expected(records: seq<RemoteItem>, k: string): Item
  {
    match LastTopLevel(records, k)
    case Some(r) => ItemOf(r, AttachmentsFor(records, k))
    case None => Placeholder(AttachmentsFor(records, k))
  }

  /**
   * The grouping, whatever the arrival order: one entry per key some record
   * is filed under; each entry carries all attachments of that key in
   * arrival order, and the scalar fields of the last top-level record with
   * that key, or none at all when no such record arrived.
   */
  lemma {:induction false} GroupSpec(records: seq<RemoteItem>)
    ensures Group(records).Keys == GroupKeys(records)
    ensures forall k :: k in Group(records) ==> Group(records)[k] == Expected(records, k)
  {
    if records != [] {
      var init, r := records[..|records| - 1], records[|records| - 1];
      GroupSpec(init);
      forall k | k in Group(records) ensures Group(records)[k] == Expected(records, k) {
        if k != GroupKey(r) {
          assert AttachmentsFor(records, k) == AttachmentsFor(init, k);
        } else if IsAttachment(r) {
          assert AttachmentsFor(records, k) == AttachmentsFor(init, k) + [AttachmentOf(r)];
          if k !in Group(init) {
            assert k !in GroupKeys(init);
            NoKeyNoEntries(init, k);
          }
        } else {
          if k !in Group(init) {
            assert k !in GroupKeys(init);
            NoKeyNoEntries(init, k);
          }
        }
      }
    }
  }

  /** A key no record is filed under has no attachments and no top-level record. */
  lemma {:induction false} NoKeyNoEntries(records: seq<RemoteItem>, k: string)
    requires k !in GroupKeys(records)
    ensures AttachmentsFor(records, k) == [] && LastTopLevel(records, k) == None
  {
    if records != [] {
      NoKeyNoEntries(records[..|records| - 1], k);
    }
  }

  /** The keys are exactly those of the records: parent keys of attachments, own keys of the others. */
  lemma {:induction false} GroupKeysMembers(records: seq<RemoteItem>, k: string)
    ensures k in GroupKeys(records) <==> exists i :: 0 <= i < |records| && GroupKey(records[i]) == k
  {
    if records != [] {
      var init := records[..|records| - 1];
      GroupKeysMembers(init, k);
      if k in GroupKeys(init) {
        var i :| 0 <= i < |init| && GroupKey(init[i]) == k;
        assert records[i] == init[i];
      }
      if exists i :: 0 <= i < |records| && GroupKey(records[i]) == k {
        var i :| 0 <= i < |records| && GroupKey(records[i]) == k;
        if i < |init| { assert init[i] == records[i]; }
      }
    }
  }

  /** Every attachment record ends up, as its entry, under its parent's key. */
  lemma {:induction false} AttachmentFiled(records: seq<RemoteItem>, i: nat)
    requires i < |records| && IsAttachment(records[i])
    ensures records[i].data.parentKey in Group(records)
    ensures AttachmentOf(records[i]) in Group(records)[records[i].data.parentKey].attachments
  {
    GroupSpec(records);
    GroupKeysMembers(records, records[i].data.parentKey);
    AttachmentInFilter(records, i);
  }

  /** An attachment record shows up in the filtered attachments of its parent. */
  lemma {:induction false} AttachmentInFilter(records: seq<RemoteItem>, i: nat)
    requires i < |records| && IsAttachment(records[i])
    ensures AttachmentOf(records[i]) in AttachmentsFor(records, records[i].data.parentKey)
  {
    var init := records[..|records| - 1];
    if i < |init| {
      assert init[i] == records[i];
      AttachmentInFilter(init, i);
    }
  }

  /** No record, no item type: the grouping never fills `itemType`. */
  lemma ItemTypeNeverSet(records: seq<RemoteItem>)
    ensures forall k :: k in Group(records) ==> Group(records)[k].itemType == ""
  {
    GroupSpec(records);
  }

  /** A parent that never arrives as a top-level record leaves an entry with only its attachments. */
  lemma PlaceholderEntry(records: seq<RemoteItem>, k: string)
    requires k in Group(records)
    requires forall i :: 0 <= i < |records| ==> IsAttachment(records[i]) || records[i].key != k
    ensures Group(records)[k] == Placeholder(AttachmentsFor(records, k))
  {
    GroupSpec(records);
    if LastTopLevel(records, k).Some? {
      LastTopLevelIn(records, k);
    }
  }

  /** The last top-level record is one of the records. */
  lemma {:induction false} LastTopLevelIn(records: seq<RemoteItem>, k: string)
    requires LastTopLevel(records, k).Some?
    ensures exists i :: 0 <= i < |records| && records[i] == LastTopLevel(records, k).value
  {
    var init := records[..|records| - 1];
    if LastTopLevel(records, k) != Some(records[|records| - 1]) {
      LastTopLevelIn(init, k);
      var i :| 0 <= i < |init| && init[i] == LastTopLevel(init, k).value;
      assert records[i] == init[i];
    }
  }

  /**
   * Arrival order does not matter beyond what the entries record: two
   * record lists with the same keys, the same attachments per key in the
   * same order and the same last top-level record per key group alike.
   */
  lemma GroupOrderIndependent(records: seq<RemoteItem>, records': seq<RemoteItem>)
    requires GroupKeys(records) == GroupKeys(records')
    requires forall k :: AttachmentsFor(records, k) == AttachmentsFor(records', k)
    requires forall k :: LastTopLevel(records, k) == LastTopLevel(records', k)
    ensures Group(records) == Group(records')
  {
    GroupSpec(records);
    GroupSpec(records');
  }

  /** A top-level record arriving after its attachment gives the same entry as arriving before it. */
  lemma LateParentKeepsAttachments(parent: RemoteItem, child: RemoteItem)
    requires !IsAttachment(parent) && IsAttachment(child) && child.data.parentKey == parent.key
    ensures Group([child, parent]) == Group([parent, child])
    ensures Group([child, parent]) == map[parent.key := ItemOf(parent, [AttachmentOf(child)])]
  {
    assert [child, parent][..1] == [child] && [child][..0] == [];
    assert [parent, child][..1] == [parent] && [parent][..0] == [];
    assert Group([child]) == map[parent.key := Placeholder([AttachmentOf(child)])];
    assert Group([parent]) == map[parent.key := ItemOf(parent, [])];
    assert [] + [AttachmentOf(child)] == [AttachmentOf(child)];
    assert Group([parent, child]) == map[parent.key := ItemOf(parent, [AttachmentOf(child)])];
  }

  /**
   * The grouping loop of `initSync`: each record is filed under its key,
   * creating a placeholder for a parent not seen yet and keeping the
   * attachments gathered so far when the item itself arrives.
   */
  method GroupRecords(records: seq<RemoteItem>) returns (byKey: map<string, Item>)
    ensures byKey == Group(records)
  {
    byKey := map[];
    for i := 0 to |records|
      invariant byKey == Group(records[..i])
    {
      var item := records[i];
      assert records[..i + 1][..i] == records[..i];
      if item.data.parentKey != "" {
        var attach := AttachmentOf(item);
        if item.data.parentKey in byKey {
          var parent := byKey[item.data.parentKey];
          parent := parent.(attachments := parent.attachments + [attach]);
          byKey := byKey[item.data.parentKey := parent];
        } else {
          byKey := byKey[item.data.parentKey := Placeholder([attach])];
        }
      } else {
        if item.key in byKey {
          var existing := byKey[item.key];
          byKey := byKey[item.key := ItemOf(item, existing.attachments)];
        } else {
          byKey := byKey[item.key := ItemOf(item, [])];
        }
      }
    }
    assert records[..|records|] == records;
  }

  /** `items` lists the values of `m` in the key order `order`, each key once. */
  ghost predicate ListedBy(items: seq<Item>, m: map<string, Item>, order: seq<string>)
  {
    |order| == |items|
    && (forall i, j :: 0 <= i < j < |order| ==> order[i] != order[j])
    && (forall k :: k in m <==> k in order)
    && (forall i :: 0 <= i < |order| ==> order[i] in m && items[i] == m[order[i]])
  }

  /** `items` lists each value of `m` once, in some key order (Go's map iteration order is unspecified). */
  ghost predicate ListsValues(items: seq<Item>, m: map<string, Item>)
  {
    exists order :: ListedBy(items, m, order)
  }

  /** A listing has one item per key, and every entry of the map appears in it. */
  lemma ListingCount(items: seq<Item>, m: map<string, Item>)
    requires ListsValues(items, m)
    ensures |items| == |m|
    ensures forall k :: k in m ==> m[k] in items
  {
    var order :| ListedBy(items, m, order);
    ListedByCount(items, m, order);
  }

  lemma ListedByCount(items: seq<Item>, m: map<string, Item>, order: seq<string>)
    requires ListedBy(items, m, order)
    ensures |items| == |m|
    ensures forall k :: k in m ==> m[k] in items
  {
    DistinctCard(order);
    var keys := set i | 0 <= i < |order| :: order[i];
    assert keys == m.Keys by {
      forall k | k in m ensures k in keys {
        var i :| 0 <= i < |order| && order[i] == k;
      }
    }
    forall k | k in m ensures m[k] in items {
      var i :| 0 <= i < |order| && order[i] == k;
      assert items[i] == m[k];
    }
  }

  /** A list without repetitions has as many elements as its set. */
  lemma {:induction false} DistinctCard(order: seq<string>)
    requires forall i, j :: 0 <= i < j < |order| ==> order[i] != order[j]
    ensures |set i | 0 <= i < |order| :: order[i]| == |order|
  {
    if order != [] {
      var init := order[..|order| - 1];
      DistinctCard(init);
      var s := set i | 0 <= i < |order| :: order[i];
      var s' := set i | 0 <= i < |init| :: init[i];
      assert s == s' + {order[|order| - 1]};
      assert order[|order| - 1] !in s';
    }
  }

  /**
   * The loop both sync commands end with: one item per entry of `m`,
   * appended in whatever order the map is walked.
   */
  method ListValues(m: map<string, Item>) returns (items: seq<Item>)
    ensures ListsValues(items, m)
  {
    items := [];
    var rest := m.Keys;
    ghost var order: seq<string> := [];
    while rest != {}
      invariant rest <= m.Keys
      invariant forall k :: k in m ==> (k in rest <==> k !in order)
      invariant |order| == |items|
      invariant forall i, j :: 0 <= i < j < |order| ==> order[i] != order[j]
      invariant forall i :: 0 <= i < |order| ==> order[i] in m && items[i] == m[order[i]]
      decreases rest
    {
      var k :| k in rest;
      items := items + [m[k]];
      order := order + [k];
      rest := rest - {k};
    }
    assert ListedBy(items, m, order);
  }

  /**
   * `initSync`: the stored library becomes version `res.version` with one
   * item per key of the grouping (the old items are dropped); the last
   * search and the file are untouched.
   */
  method InitSync(storage: Storage, res: ItemsResult)
    modifies storage
    ensures storage.data.lib.version == res.version
    ensures ListsValues(storage.data.lib.items, Group(res.items))
    ensures storage.data.search == old(storage.data.search)
    ensures storage.disk == old(storage.disk)
  {
    var byKey := GroupRecords(res.items);
    var items := ListValues(byKey);
    storage.data := storage.data.(lib := Library(res.version, items));
  }

  /** Why a sync run stops the process. */
  datatype Failure = LoadItems(err: Error) | PersistLibrary

  /** How a sync run ends: the library was saved, the library was already initialised, or the process died. */
  datatype Outcome = Persisted | NotSupported | Died(failure: Failure)

  /**
   * `Run` from the version check on: an uninitialised library (version 0)
   * is fetched in full, grouped and saved; fetching or saving failures kill
   * the process. An initialised library is left alone: nothing is fetched
   * and nothing is written. A failed save leaves the file as `fault`
   * says (see `AfterFault`).
   */
  method Run(storage: Storage, server: Server, writeOk: bool, fault: Fault)
    returns (outcome: Outcome, ghost fetched: ItemsResult, ghost requests: seq<nat>)
    modifies storage
    ensures old(storage.data.lib.version) != 0 ==>
      outcome == NotSupported && requests == []
      && storage.data == old(storage.data) && storage.disk == old(storage.disk)
    ensures old(storage.data.lib.version) == 0 ==>
      outcome != NotSupported
      && exists err :: Paginated(server, fetched, err, requests) && (err.Some? ==> outcome == Died(LoadItems(err.value)))
    ensures outcome.Died? && outcome.failure.LoadItems? ==>
      storage.data == old(storage.data) && storage.disk == old(storage.disk)
    ensures outcome == Persisted || outcome == Died(PersistLibrary) ==>
      storage.data.lib.version == fetched.version
      && ListsValues(storage.data.lib.items, Group(fetched.items))
      && storage.data.search == old(storage.data.search)
    ensures outcome == Persisted <==>
      old(storage.data.lib.version) == 0 && writeOk && Paginated(server, fetched, None, requests)
    ensures outcome == Persisted ==> storage.disk == Some(storage.data)
    ensures old(storage.data.lib.version) == 0 && Paginated(server, fetched, None, requests) && !writeOk ==>
      outcome == Died(PersistLibrary)
    ensures outcome == Died(PersistLibrary) ==> storage.disk == AfterFault(old(storage.disk), storage.data, fault)
  {
    fetched, requests := ItemsResult([], 0), [];
    if storage.data.lib.version == 0 {
      var items, err;
      items, err, requests := AllItems(server);
      fetched := items;
      if err.Some? {
        return Died(LoadItems(err.value)), fetched, requests;
      }
      InitSync(storage, items);
      var ok := storage.Persist(writeOk, fault);
      if !ok {
        return Died(PersistLibrary), fetched, requests;
      }
      outcome := Persisted;
    } else {
      outcome := NotSupported;
    }
  }
}
