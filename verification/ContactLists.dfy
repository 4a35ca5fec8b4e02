/** The contact list of client/main.go: the contacts in the database, then the queued ones that are
    not there yet, sorted by latest message. */
module ContactLists {
  import opened Clients
  import opened Common
  import opened Listings
  import opened Membership
  import opened QueryOrder
  import opened Sorting

  datatype Message = Message(
    messageID: string, timestamp: string, status: string, text: string, senderID: string, receiverID: string)

  datatype DbContact = DbContact(containerID: string, name: string, hostname: string, lastMessage: Option<Message>)

  datatype ContactMessages = ContactMessages(contact: string, contactName: string, messages: seq<Message>)

  // ----- Order of strings -----

  predicate LexLess(a: string, b: string) {
    if b == [] then false
    else if a == [] then true
    else if a[0] != b[0] then a[0] < b[0]
    else LexLess(a[1..], b[1..])
  }

  /** `a` and `b` agree on their first `k` characters, and then `a` ends or has the smaller character. */
  ghost predicate FirstDifference(a: string, b: string, k: nat) {
    k <= |a| && k < |b| && a[..k] == b[..k] && (k == |a| || a[k] < b[k])
  }

  /** The order of strings is that of their first difference. */
  lemma {:induction false} LexLessMeans(a: string, b: string)
    ensures LexLess(a, b) <==> exists k :: FirstDifference(a, b, k)
  {
    if a == [] || b == [] {
      assert b != [] ==> FirstDifference(a, b, 0);
    } else if a[0] == b[0] {
      LexLessMeans(a[1..], b[1..]);
      assert a == [a[0]] + a[1..] && b == [b[0]] + b[1..];
      if k: nat :| FirstDifference(a[1..], b[1..], k) {
        assert a[..k + 1] == [a[0]] + a[1..][..k] && b[..k + 1] == [b[0]] + b[1..][..k];
        assert FirstDifference(a, b, k + 1);
      }
      if k: nat :| FirstDifference(a, b, k) {
        assert k > 0;
        assert a[1..][..k - 1] == a[..k][1..] && b[1..][..k - 1] == b[..k][1..];
        assert FirstDifference(a[1..], b[1..], k - 1);
      }
    } else {
      assert a[0] < b[0] ==> FirstDifference(a, b, 0);
      forall k: nat ensures FirstDifference(a, b, k) ==> a[0] < b[0] {
        if FirstDifference(a, b, k) && k > 0 {
          assert a[..k][0] == b[..k][0];
        }
      }
    }
  }

  lemma {:induction false} LexTotal(a: string, b: string)
    ensures a == b <==> !LexLess(a, b) && !LexLess(b, a)
    ensures !(LexLess(a, b) && LexLess(b, a))
  {
    if a != [] && b != [] && a[0] == b[0] {
      LexTotal(a[1..], b[1..]);
      assert a == [a[0]] + a[1..] && b == [b[0]] + b[1..];
    }
  }

  lemma {:induction false} LexTransitive(a: string, b: string, c: string)
    requires LexLess(a, b) && LexLess(b, c)
    ensures LexLess(a, c)
  {
    if a != [] && a[0] == b[0] == c[0] {
      LexTransitive(a[1..], b[1..], c[1..]);
    }
  }

  // ----- The comparison -----

  function Latest(c: ContactMessages): (timestamp: string)
    requires |c.messages| > 0
  {
    c.messages[|c.messages| - 1].timestamp
  }

  predicate ListedBefore(a: ContactMessages, b: ContactMessages) {
    if |a.messages| > 0 && |b.messages| > 0 then
      if Latest(a) != Latest(b) then LexLess(Latest(b), Latest(a)) else LexLess(a.contact, b.contact)
    else if |a.messages| > 0 then true
    else if |b.messages| > 0 then false
    else LexLess(a.contact, b.contact)
  }

  lemma ListedBeforeTransitive(a: ContactMessages, b: ContactMessages, c: ContactMessages)
    requires ListedBefore(a, b) && ListedBefore(b, c)
    ensures ListedBefore(a, c)
  {
    LexTransitivity(a.contact, b.contact, c.contact);
    if |a.messages| > 0 && |b.messages| > 0 && |c.messages| > 0 {
      LexTransitivity(Latest(c), Latest(b), Latest(a));
      LexTotal(Latest(a), Latest(c));
      LexTotal(Latest(a), Latest(b));
    }
  }

  lemma LexTransitivity(a: string, b: string, c: string)
    ensures LexLess(a, b) && LexLess(b, c) ==> LexLess(a, c)
  {
    if LexLess(a, b) && LexLess(b, c) {
      LexTransitive(a, b, c);
    }
  }

  /** Two entries are tied exactly when they have the same contact and the same latest timestamp. */
  lemma ListedBeforeTotal(a: ContactMessages, b: ContactMessages)
    ensures !ListedBefore(a, b) && !ListedBefore(b, a) <==>
      && a.contact == b.contact
      && (|a.messages| > 0 <==> |b.messages| > 0)
      && (|a.messages| > 0 ==> Latest(a) == Latest(b))
    ensures !(ListedBefore(a, b) && ListedBefore(b, a))
  {
    LexTotal(a.contact, b.contact);
    if |a.messages| > 0 && |b.messages| > 0 {
      LexTotal(Latest(a), Latest(b));
    }
  }

  /** The comparison is a strict weak order on all entries, and total on entries of different contacts. */
  lemma ListedBeforeIsOrder()
    ensures StrictWeakOrder(ListedBefore)
    ensures forall a: ContactMessages, b: ContactMessages ::
      a.contact != b.contact ==> ListedBefore(a, b) || ListedBefore(b, a)
  {
    forall a: ContactMessages, b: ContactMessages, c: ContactMessages
      ensures ListedBefore(a, b) && ListedBefore(b, c) ==> ListedBefore(a, c)
      ensures ListedBefore(a, c) ==> ListedBefore(a, b) || ListedBefore(b, c)
      ensures !ListedBefore(a, a)
      ensures a.contact != b.contact ==> ListedBefore(a, b) || ListedBefore(b, a)
    {
      ListedBeforeTotal(a, a);
      ListedBeforeTotal(a, b);
      ListedBeforeTotal(b, c);
      if ListedBefore(a, b) && ListedBefore(b, c) {
        ListedBeforeTransitive(a, b, c);
      }
      if ListedBefore(a, c) && !ListedBefore(a, b) && !ListedBefore(b, c) {
        if ListedBefore(b, a) {
          ListedBeforeTransitive(b, a, c);
        } else {
          TiedActAlike(a, b, c);
        }
      }
    }
  }

  lemma TiedActAlike(a: ContactMessages, b: ContactMessages, c: ContactMessages)
    requires !ListedBefore(a, b) && !ListedBefore(b, a)
    ensures ListedBefore(a, c) == ListedBefore(b, c)
  {
    ListedBeforeTotal(a, b);
  }

  // ----- The merge -----

  function FromDb(c: DbContact): (r: ContactMessages) {
    ContactMessages(c.containerID, c.name, if c.lastMessage.Some? then [c.lastMessage.value] else [])
  }

  function FromQueue(x: Identity): (r: ContactMessages) {
    ContactMessages(x.containerID, x.name, [])
  }

  ghost predicate InDb(db: seq<DbContact>, id: string) {
    exists i :: 0 <= i < |db| && db[i].containerID == id
  }

  /** The list before sorting, as a function of the two sources. */
  ghost function Merged(db: seq<DbContact>, queued: seq<Identity>): (r: seq<ContactMessages>) {
    if queued == [] then seq(|db|, i requires 0 <= i < |db| => FromDb(db[i]))
    else
      var n := |queued| - 1;
      Merged(db, queued[..n]) + (if InDb(db, queued[n].containerID) then [] else [FromQueue(queued[n])])
  }

  ghost function NotInDb(db: seq<DbContact>, queued: seq<Identity>): (r: seq<Identity>) {
    if queued == [] then []
    else
      var n := |queued| - 1;
      NotInDb(db, queued[..n]) + (if InDb(db, queued[n].containerID) then [] else [queued[n]])
  }

  /** The entry comes from the database, or from the queue for lack of a database entry. */
  ghost predicate Sourced(db: seq<DbContact>, queued: seq<Identity>, c: ContactMessages) {
    || (exists i :: 0 <= i < |db| && c == FromDb(db[i]))
    || (exists j :: 0 <= j < |queued| && c == FromQueue(queued[j]) && !InDb(db, queued[j].containerID))
  }

  ghost predicate DistinctContacts(list: seq<ContactMessages>) {
    forall i, j :: 0 <= i < j < |list| ==> list[i].contact != list[j].contact
  }

  ghost predicate DistinctRows(db: seq<DbContact>) {
    forall i, j :: 0 <= i < j < |db| ==> db[i].containerID != db[j].containerID
  }

  /** The rows of the database and the queued contacts that are not among them, sorted. `saved` are the
      contacts that are newly written to the database. */
  method MergeContacts(db: seq<DbContact>, queued: seq<Identity>)
    returns (list: seq<ContactMessages>, saved: seq<Identity>)
    ensures multiset(list) == multiset(Merged(db, queued)) && SortedBy(list, ListedBefore)
    ensures saved == NotInDb(db, queued)
  {
    saved := [];
    var contactMap: map<string, ContactMessages> := map[];
    list := [];
    for i := 0 to |db|
      invariant list == Merged(db[..i], [])
      invariant forall id :: id in contactMap <==> InDb(db[..i], id)
    {
      var contactMsg := FromDb(db[i]);
      ghost var before := db[..i];
      assert db[..i + 1] == before + [db[i]];
      forall id ensures InDb(db[..i + 1], id) <==> InDb(before, id) || id == contactMsg.contact {
        if InDb(before, id) {
          var j :| 0 <= j < i && before[j].containerID == id;
          assert db[..i + 1][j].containerID == id;
        }
        assert db[..i + 1][i].containerID == contactMsg.contact;
      }
      contactMap := contactMap[contactMsg.contact := contactMsg];
      list := list + [contactMsg];
    }
    assert db[..|db|] == db;
    for i := 0 to |queued|
      invariant list == Merged(db, queued[..i]) && saved == NotInDb(db, queued[..i])
    {
      assert queued[..i + 1][..i] == queued[..i];
      if queued[i].containerID !in contactMap {
        saved := saved + [queued[i]];
        list := list + [FromQueue(queued[i])];
      }
    }
    assert queued[..|queued|] == queued;
    ListedBeforeIsOrder();
    list := SortSlice(list, ListedBefore);
  }

  lemma SourcedGrows(db: seq<DbContact>, queued: seq<Identity>, x: Identity, c: ContactMessages)
    ensures Sourced(db, queued + [x], c) <==>
      Sourced(db, queued, c) || (c == FromQueue(x) && !InDb(db, x.containerID))
  {
    var all := queued + [x];
    if j :| 0 <= j < |queued| && c == FromQueue(queued[j]) && !InDb(db, queued[j].containerID) {
      assert all[j] == queued[j];
    }
    assert all[|queued|] == x;
  }

  /** The merge is a union without duplicates, in which the database's entry wins. */
  lemma {:induction false} MergedIsUnion(db: seq<DbContact>, queued: seq<Identity>)
    requires DistinctRows(db) && DistinctIds(queued)
    ensures DistinctContacts(Merged(db, queued))
    ensures forall c :: c in Merged(db, queued) <==> Sourced(db, queued, c)
    decreases |queued|
  {
    if queued == [] {
      forall i | 0 <= i < |db| ensures FromDb(db[i]) in Merged(db, []) {
        assert Merged(db, [])[i] == FromDb(db[i]);
      }
    } else {
      var n := |queued| - 1;
      var before := Merged(db, queued[..n]);
      MergedIsUnion(db, queued[..n]);
      assert queued == queued[..n] + [queued[n]];
      forall c ensures c in Merged(db, queued) <==> Sourced(db, queued, c) {
        SourcedGrows(db, queued[..n], queued[n], c);
      }
      forall i | 0 <= i < |before| && !InDb(db, queued[n].containerID)
        ensures before[i].contact != queued[n].containerID
      {
        assert before[i] in before;
      }
    }
  }

  lemma PermutedDistinct(a: seq<ContactMessages>, b: seq<ContactMessages>)
    requires DistinctContacts(a) && multiset(a) == multiset(b)
    ensures DistinctContacts(b)
  {
    DistinctPermute(a, b);
    forall i, j | 0 <= i < j < |b| ensures b[i].contact != b[j].contact {
      assert b[i] in multiset(a) && b[j] in multiset(a);
      var k, l :| 0 <= k < |a| && a[k] == b[i] && 0 <= l < |a| && a[l] == b[j];
    }
  }

  /** Without duplicates there is only one sorted list, whatever sorting algorithm is used. */
  lemma ContactOrderUnique(a: seq<ContactMessages>, b: seq<ContactMessages>)
    requires DistinctContacts(a) && multiset(a) == multiset(b)
    requires SortedBy(a, ListedBefore) && SortedBy(b, ListedBefore)
    ensures a == b
  {
    ListedBeforeIsOrder();
    SortedUnique(a, b, ListedBefore);
  }

  /** What the order means: contacts with messages first, the newest message first, and the id
      decides between equal timestamps and between contacts without messages. */
  lemma SortedMeans(list: seq<ContactMessages>, i: nat, j: nat)
    requires SortedBy(list, ListedBefore) && DistinctContacts(list) && i < j < |list|
    ensures |list[j].messages| > 0 ==>
      && |list[i].messages| > 0
      && (Latest(list[i]) == Latest(list[j]) || LexLess(Latest(list[j]), Latest(list[i])))
      && (Latest(list[i]) == Latest(list[j]) ==> LexLess(list[i].contact, list[j].contact))
    ensures |list[i].messages| == 0 ==> LexLess(list[i].contact, list[j].contact)
  {
    ListedBeforeTotal(list[i], list[j]);
    if |list[i].messages| > 0 && |list[j].messages| > 0 {
      LexTotal(Latest(list[i]), Latest(list[j]));
    }
    LexTotal(list[i].contact, list[j].contact);
  }

  /** A row of the database, or a registered waiting id without a row, as an entry without messages. */
  ghost predicate BelongsOn(
        db: seq<DbContact>, waiting: seq<string>, registry: map<string, Identity>, c: ContactMessages)
  {
    || (exists i :: 0 <= i < |db| && c == FromDb(db[i]))
    || (c.contact in waiting && c.contact in registry && !InDb(db, c.contact) && c == FromQueue(registry[c.contact]))
  }

  /** The contact list of a client with these waiting ids and this registry: what belongs on it, each
      once, and in order. */
  ghost predicate IsContactList(
        list: seq<ContactMessages>, db: seq<DbContact>, waiting: seq<string>, registry: map<string, Identity>)
  {
    && SortedBy(list, ListedBefore) && DistinctContacts(list)
    && forall c :: c in list <==> BelongsOn(db, waiting, registry, c)
  }

  lemma SourcedFromWaiting(db: seq<DbContact>, queued: seq<Identity>, waiting: seq<string>,
        registry: map<string, Identity>, c: ContactMessages)
    requires IsWaitingAndKnown(queued, waiting, registry) && KeyedById(registry)
    ensures Sourced(db, queued, c) <==> BelongsOn(db, waiting, registry, c)
  {
    if j :| 0 <= j < |queued| && c == FromQueue(queued[j]) && !InDb(db, queued[j].containerID) {
      assert queued[j] in queued;
    }
    if c.contact in waiting && c.contact in registry {
      assert registry[c.contact] in queued;
    }
  }

  lemma MergedIsContactList(list: seq<ContactMessages>, db: seq<DbContact>, queued: seq<Identity>,
        waiting: seq<string>, registry: map<string, Identity>)
    requires multiset(list) == multiset(Merged(db, queued)) && SortedBy(list, ListedBefore)
    requires IsWaitingAndKnown(queued, waiting, registry) && KeyedById(registry) && DistinctRows(db)
    ensures IsContactList(list, db, waiting, registry)
  {
    MergedIsUnion(db, queued);
    PermutedDistinct(Merged(db, queued), list);
    forall c ensures c in list <==> Sourced(db, queued, c) {
      assert c in list <==> c in multiset(list);
      assert c in Merged(db, queued) <==> c in multiset(Merged(db, queued));
    }
    forall c {
      SourcedFromWaiting(db, queued, waiting, registry, c);
    }
  }

  /** That leaves one list only, whatever the heap order of the queue and the sorting algorithm. */
  lemma ContactListUnique(a: seq<ContactMessages>, b: seq<ContactMessages>,
        db: seq<DbContact>, waiting: seq<string>, registry: map<string, Identity>)
    requires IsContactList(a, db, waiting, registry) && IsContactList(b, db, waiting, registry)
    ensures a == b
  {
    forall c ensures multiset(a)[c] == multiset(b)[c] {
      OnceInMultiset(a, c);
      OnceInMultiset(b, c);
      assert c in a <==> c in b;
      assert (c in multiset(a) <==> c in a) && (c in multiset(b) <==> c in b);
    }
    ContactOrderUnique(a, b);
  }

  /** Written to the database: the registered waiting contacts without a row, each once. */
  ghost predicate IsSaved(
        saved: seq<Identity>, db: seq<DbContact>, waiting: seq<string>, registry: map<string, Identity>)
  {
    && DistinctIds(saved)
    && forall x :: x in saved <==>
      && x.containerID in waiting && x.containerID in registry && registry[x.containerID] == x
      && !InDb(db, x.containerID)
  }

  lemma {:induction false} NotInDbSelects(db: seq<DbContact>, queued: seq<Identity>)
    requires DistinctIds(queued)
    ensures DistinctIds(NotInDb(db, queued))
    ensures forall x :: x in NotInDb(db, queued) <==> x in queued && !InDb(db, x.containerID)
  {
    if queued != [] {
      var n := |queued| - 1;
      NotInDbSelects(db, queued[..n]);
      assert queued == queued[..n] + [queued[n]];
      var before := NotInDb(db, queued[..n]);
      forall i | 0 <= i < |before| ensures before[i].containerID != queued[n].containerID {
        assert before[i] in before;
      }
    }
  }

  lemma NotInDbIsSaved(db: seq<DbContact>, queued: seq<Identity>, waiting: seq<string>,
        registry: map<string, Identity>)
    requires IsWaitingAndKnown(queued, waiting, registry)
    ensures IsSaved(NotInDb(db, queued), db, waiting, registry)
  {
    NotInDbSelects(db, queued);
  }

  // ----- The list, said of the rows, the waiting ids and the registry alone -----

  /** Each row has its entry, with its name and its last message, if it has one. */
  ghost predicate ShowsRows(list: seq<ContactMessages>, db: seq<DbContact>) {
    forall i :: 0 <= i < |db| ==>
      ContactMessages(db[i].containerID, db[i].name, if db[i].lastMessage.Some? then [db[i].lastMessage.value] else [])
        in list
  }

  /** Each registered waiting id without a row has its entry, with the registered name and no messages. */
  ghost predicate ShowsWaiting(
        list: seq<ContactMessages>, db: seq<DbContact>, waiting: seq<string>, registry: map<string, Identity>)
  {
    forall id :: id in waiting && id in registry && (forall i :: 0 <= i < |db| ==> db[i].containerID != id) ==>
      ContactMessages(id, registry[id].name, []) in list
  }

  /** Every entry is for a row or for a registered waiting id, and no two are for the same contact. */
  ghost predicate ShowsNoOthers(
        list: seq<ContactMessages>, db: seq<DbContact>, waiting: seq<string>, registry: map<string, Identity>)
  {
    && (forall c :: c in list ==>
      || (exists i :: 0 <= i < |db| && db[i].containerID == c.contact)
      || (c.contact in waiting && c.contact in registry))
    && (forall p, q :: 0 <= p < q < |list| ==> list[p].contact != list[q].contact)
  }

  /** The row of `a` has a message and goes before the row of `b`: that one has none, or its timestamp is a
      smaller string, or the timestamps are the same and the id of `a` is smaller. */
  ghost predicate RowBefore(a: DbContact, b: DbContact) {
    a.lastMessage.Some? && (
      || b.lastMessage.None?
      || LexLess(b.lastMessage.value.timestamp, a.lastMessage.value.timestamp)
      || (a.lastMessage.value.timestamp == b.lastMessage.value.timestamp && LexLess(a.containerID, b.containerID)))
  }

  /** Rows with a message come first, in their order; then come all entries without messages, by id. */
  ghost predicate RowsInOrder(list: seq<ContactMessages>, db: seq<DbContact>) {
    && (forall i, k, p, q | 0 <= i < |db| && 0 <= k < |db| && 0 <= p < |list| && 0 <= q < |list|
        && list[p].contact == db[i].containerID && list[q].contact == db[k].containerID ::
        RowBefore(db[i], db[k]) ==> p < q)
    && (forall i, p, q | 0 <= i < |db| && 0 <= p < |list| && 0 <= q < |list|
        && list[p].contact == db[i].containerID && db[i].lastMessage.Some? :: list[q].messages == [] ==> p < q)
    && (forall p, q | 0 <= p < |list| && 0 <= q < |list| && list[p].messages == list[q].messages == [] ::
        LexLess(list[p].contact, list[q].contact) ==> p < q)
  }

  lemma RowEntry(list: seq<ContactMessages>, db: seq<DbContact>, i: nat, p: nat)
    requires ShowsRows(list, db) && DistinctContacts(list)
    requires i < |db| && p < |list| && list[p].contact == db[i].containerID
    ensures list[p].messages == if db[i].lastMessage.Some? then [db[i].lastMessage.value] else []
  {
    var c := ContactMessages(
      db[i].containerID, db[i].name, if db[i].lastMessage.Some? then [db[i].lastMessage.value] else []);
    var q :| 0 <= q < |list| && list[q] == c;
  }

  lemma PositionsFollowOrder(list: seq<ContactMessages>, p: nat, q: nat)
    requires SortedBy(list, ListedBefore) && p < |list| && q < |list| && ListedBefore(list[p], list[q])
    ensures p < q
  {
    ListedBeforeTotal(list[p], list[q]);
  }

  lemma ListShows(list: seq<ContactMessages>, db: seq<DbContact>, waiting: seq<string>, registry: map<string, Identity>)
    requires IsContactList(list, db, waiting, registry) && KeyedById(registry)
    ensures ShowsRows(list, db) && ShowsWaiting(list, db, waiting, registry)
    ensures ShowsNoOthers(list, db, waiting, registry)
  {
    forall i | 0 <= i < |db| ensures FromDb(db[i]) in list {
      assert BelongsOn(db, waiting, registry, FromDb(db[i]));
    }
    forall id | id in waiting && id in registry && forall i :: 0 <= i < |db| ==> db[i].containerID != id
      ensures FromQueue(registry[id]) in list
    {
      assert BelongsOn(db, waiting, registry, FromQueue(registry[id]));
    }
  }

  lemma ListInRowOrder(list: seq<ContactMessages>, db: seq<DbContact>)
    requires SortedBy(list, ListedBefore) && DistinctContacts(list) && ShowsRows(list, db)
    ensures RowsInOrder(list, db)
  {
    forall i, k, p, q | 0 <= i < |db| && 0 <= k < |db| && 0 <= p < |list| && 0 <= q < |list|
      && list[p].contact == db[i].containerID && list[q].contact == db[k].containerID && RowBefore(db[i], db[k])
      ensures p < q
    {
      RowEntry(list, db, i, p);
      RowEntry(list, db, k, q);
      if db[k].lastMessage.Some? {
        LexTotal(db[i].lastMessage.value.timestamp, db[k].lastMessage.value.timestamp);
      }
      PositionsFollowOrder(list, p, q);
    }
    forall i, p, q | 0 <= i < |db| && 0 <= p < |list| && 0 <= q < |list|
      && list[p].contact == db[i].containerID && db[i].lastMessage.Some? && list[q].messages == []
      ensures p < q
    {
      RowEntry(list, db, i, p);
      PositionsFollowOrder(list, p, q);
    }
    forall p, q | 0 <= p < |list| && 0 <= q < |list|
      && list[p].messages == [] && list[q].messages == [] && LexLess(list[p].contact, list[q].contact)
      ensures p < q
    {
      PositionsFollowOrder(list, p, q);
    }
  }

  /** The contact list that a client shows. `db` is the answer of the contact query, if it succeeds; an
      id has one row there. */
  method GetAllContactMessages(client: Client, db: Option<seq<DbContact>>)
    returns (result: Option<seq<ContactMessages>>, saved: seq<Identity>)
    requires client.Valid()
    ensures db.None? ==> result.None? && saved == []
    ensures db.Some? ==> result.Some?
    ensures db.Some? && DistinctRows(db.value) && KeyedById(client.Now().view.registry) ==>
      var registry := client.Now().view.registry;
      && IsContactList(result.value, db.value, client.waiting, registry)
      && ShowsRows(result.value, db.value) && ShowsWaiting(result.value, db.value, client.waiting, registry)
      && ShowsNoOthers(result.value, db.value, client.waiting, registry) && RowsInOrder(result.value, db.value)
    ensures db.Some? && KeyedById(client.Now().view.registry) ==>
      IsSaved(saved, db.value, client.waiting, client.Now().view.registry)
  {
    if db.None? {
      return None, [];
    }
    var queued := client.GetContactsFromQueue();
    var list;
    list, saved := MergeContacts(db.value, queued);
    ghost var registry := client.Now().view.registry;
    if KeyedById(registry) {
      NotInDbIsSaved(db.value, queued, client.waiting, registry);
      if DistinctRows(db.value) {
        MergedIsContactList(list, db.value, queued, client.waiting, registry);
        ListShows(list, db.value, client.waiting, registry);
        ListInRowOrder(list, db.value);
      }
    }
    result := Some(list);
  }
}
