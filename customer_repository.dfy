/**
 * The repository the use cases persist customers through, as an in-memory
 * table of rows keyed by id. It follows the relational adapter: `save` is
 * an upsert on the id, and every read rebuilds a fresh Customer from the row
 * through `Email.create` and `Credit.create`, as its `toDomain` does.
 */
module CustomerRepository {
  import opened Wrappers
  import opened EmailValueObject
  import opened CreditValueObject
  import opened CustomerEntity

  datatype SortOrder = Asc | Desc

  predicate InOrder(a: real, b: real, order: SortOrder) {
    if order == Asc then a <= b else a >= b
  }

  predicate SortedByCredit(s: seq<CustomerRecord>, order: SortOrder) {
    forall i, j :: 0 <= i < j < |s| ==> InOrder(s[i].availableCredit, s[j].availableCredit, order)
  }

  function InsertByCredit(x: CustomerRecord, s: seq<CustomerRecord>, order: SortOrder): (r: seq<CustomerRecord>)
    requires SortedByCredit(s, order)
    ensures SortedByCredit(r, order)
    ensures multiset(r) == multiset(s) + multiset{x}
  {
    if s == [] || InOrder(x.availableCredit, s[0].availableCredit, order) then
      PrependFirst(x, s, order);
      [x] + s
    else
      var rest := InsertByCredit(x, s[1..], order);
      assert s == [s[0]] + s[1..];
      HeadStaysFirst(s[0], x, s[1..], rest, order);
      assert multiset([s[0]] + rest) == multiset{s[0]} + multiset(rest);
      [s[0]] + rest
  }

  /** An element that precedes the head of a sorted sequence can go in front of it. */
  lemma PrependFirst(x: CustomerRecord, s: seq<CustomerRecord>, order: SortOrder)
    requires SortedByCredit(s, order)
    requires s == [] || InOrder(x.availableCredit, s[0].availableCredit, order)
    ensures SortedByCredit([x] + s, order)
  {
    var t := [x] + s;
    forall i, j | 0 <= i < j < |t|
      ensures InOrder(t[i].availableCredit, t[j].availableCredit, order)
    {
      assert t[j] == s[j - 1];
      if i > 0 {
        assert t[i] == s[i - 1];
      } else if j > 1 {
        assert InOrder(s[0].availableCredit, s[j - 1].availableCredit, order);
      }
    }
  }

  /** A head that precedes every element of a sorted tail and `x` also precedes their merge `rest`. */
  lemma HeadStaysFirst(h: CustomerRecord, x: CustomerRecord, tail: seq<CustomerRecord>, rest: seq<CustomerRecord>,
                       order: SortOrder)
    requires SortedByCredit([h] + tail, order) && !InOrder(x.availableCredit, h.availableCredit, order)
    requires SortedByCredit(rest, order) && multiset(rest) == multiset(tail) + multiset{x}
    ensures SortedByCredit([h] + rest, order)
  {
    forall j | 0 <= j < |rest|
      ensures InOrder(h.availableCredit, rest[j].availableCredit, order)
    {
      assert rest[j] in multiset(rest);
      assert InOrder(h.availableCredit, x.availableCredit, order);
      if rest[j] != x {
        assert rest[j] in multiset(tail);
        var k :| 0 <= k < |tail| && tail[k] == rest[j];
        assert ([h] + tail)[0] == h && ([h] + tail)[k + 1] == tail[k];
      }
    }
    var t := [h] + rest;
    forall i, j | 0 <= i < j < |t|
      ensures InOrder(t[i].availableCredit, t[j].availableCredit, order)
    {
      if i > 0 {
        assert t[i] == rest[i - 1] && t[j] == rest[j - 1];
      } else {
        assert t[j] == rest[j - 1];
      }
    }
  }

  /** The rows ordered by credit, as the storage's `orderBy availableCredit` returns them. */
  function SortByCredit(s: seq<CustomerRecord>, order: SortOrder): (r: seq<CustomerRecord>)
    ensures SortedByCredit(r, order)
    ensures multiset(r) == multiset(s)
  {
    if s == [] then []
    else
      assert s == [s[0]] + s[1..];
      InsertByCredit(s[0], SortByCredit(s[1..], order), order)
  }

  /** The row `save` leaves under the customer's id: every field, except that an existing row keeps its `createdAt`. */
  function Upserted(rows: map<string, CustomerRecord>, rec: CustomerRecord): (r: CustomerRecord)
    ensures r.(createdAt := rec.createdAt) == rec
    ensures r.createdAt == if rec.id in rows then rows[rec.id].createdAt else rec.createdAt
    ensures RecordValid(rec) ==> RecordValid(r)
  {
    if rec.id in rows then rec.(createdAt := rows[rec.id].createdAt) else rec
  }

  predicate EmailTaken(rows: map<string, CustomerRecord>, email: string) {
    exists id :: id in rows && rows[id].email == email
  }

  /** Some customer other than `id` has this email. */
  predicate OwnedByAnother(rows: map<string, CustomerRecord>, id: string, email: string) {
    exists other :: other in rows && other != id && rows[other].email == email
  }

  ghost predicate EmailsUnique(rows: map<string, CustomerRecord>) {
    forall a, b :: a in rows && b in rows && rows[a].email == rows[b].email ==> a == b
  }

  /** Writing a row whose email no other customer holds keeps emails unique. */
  lemma WriteKeepsEmailsUnique(rows: map<string, CustomerRecord>, id: string, rec: CustomerRecord)
    ensures EmailsUnique(rows) && !OwnedByAnother(rows, id, rec.email) ==> EmailsUnique(rows[id := rec])
  {
  }

  /** With unique emails, an email held by `id` is held by nobody else. */
  lemma HolderIsOnlyOwner(rows: map<string, CustomerRecord>, id: string, email: string)
    requires EmailsUnique(rows) && id in rows && rows[id].email == email
    ensures !OwnedByAnother(rows, id, email)
  {
  }

  /** With unique emails, a customer's own stored email is owned by nobody else. */
  lemma OwnEmailNotAnothers(rows: map<string, CustomerRecord>, id: string)
    requires EmailsUnique(rows) && id in rows
    ensures !OwnedByAnother(rows, id, rows[id].email)
  {
  }

  /** What `findAllSortedByCredit` returns: every stored row exactly once, ordered by credit. */
  ghost predicate IsSortedListing(recs: seq<CustomerRecord>, rows: map<string, CustomerRecord>, order: SortOrder) {
    && SortedByCredit(recs, order)
    && (forall i :: 0 <= i < |recs| ==> recs[i].id in rows && rows[recs[i].id] == recs[i])
    && (forall id :: id in rows ==> exists i :: 0 <= i < |recs| && recs[i].id == id)
    && (forall i, j :: 0 <= i < j < |recs| ==> recs[i].id != recs[j].id)
  }

  lemma RepeatedElementCountsTwice<T>(s: seq<T>, i: nat, j: nat)
    requires i < j < |s| && s[i] == s[j]
    ensures multiset(s)[s[i]] >= 2
  {
    assert s == s[..j] + s[j..];
    assert s[i] == s[..j][i];
    assert s[j] == s[j..][0];
  }

  /** A permutation of the rows' values lists every row once. */
  lemma {:induction false} PermutationIsListing(recs: seq<CustomerRecord>, rows: map<string, CustomerRecord>, order: SortOrder)
    requires forall id :: id in rows ==> rows[id].id == id
    requires multiset(recs) == multiset(rows.Values)
    requires SortedByCredit(recs, order)
    ensures IsSortedListing(recs, rows, order)
  {
    forall i | 0 <= i < |recs|
      ensures recs[i].id in rows && rows[recs[i].id] == recs[i]
    {
      assert recs[i] in multiset(recs);
      assert recs[i] in rows.Values;
    }
    forall id | id in rows
      ensures exists i :: 0 <= i < |recs| && recs[i].id == id
    {
      assert rows[id] in rows.Values;
      assert rows[id] in multiset(recs);
      var i :| 0 <= i < |recs| && recs[i] == rows[id];
    }
    forall i, j | 0 <= i < j < |recs|
      ensures recs[i].id != recs[j].id
    {
      if recs[i].id == recs[j].id {
        assert recs[i] in multiset(recs) && recs[j] in multiset(recs);
        assert recs[i] in rows.Values;
        RepeatedElementCountsTwice(recs, i, j);
        assert false;
      }
    }
  }

  /** The rows stored under the given ids. */
  ghost function ValuesAt(rows: map<string, CustomerRecord>, ids: set<string>): set<CustomerRecord>
    requires ids <= rows.Keys
  {
    set d | d in ids :: rows[d]
  }

  lemma AddDistinctValue(rows: map<string, CustomerRecord>, done: set<string>, k: string)
    requires forall id :: id in rows ==> rows[id].id == id
    requires done <= rows.Keys && k in rows && k !in done
    ensures multiset(ValuesAt(rows, done + {k})) == multiset(ValuesAt(rows, done)) + multiset{rows[k]}
  {
    var before := ValuesAt(rows, done);
    assert rows[k] !in before;
    assert ValuesAt(rows, done + {k}) == before + {rows[k]};
  }

  lemma AllValues(rows: map<string, CustomerRecord>, ids: set<string>)
    requires ids == rows.Keys
    ensures ValuesAt(rows, ids) == rows.Values
  {
  }

  class InMemoryCustomerRepository {
    var rows: map<string, CustomerRecord>

    /**
     * Each row sits under its own id and holds a valid email and credit, and
     * no two rows share an email (the storage's unique key on the email,
     * which the lookup by email relies on).
     */
    ghost predicate Valid()
      reads this
    {
      && (forall id :: id in rows ==> rows[id].id == id && RecordValid(rows[id]))
      && EmailsUnique(rows)
    }

    constructor ()
      ensures rows == map[] && Valid()
    {
      rows := map[];
    }

    /** `toDomain`: rebuild a Customer from a row; for a valid row this gives back exactly the row. */
    static method ToDomain(rec: CustomerRecord) returns (c: Customer)
      requires RecordValid(rec)
      ensures fresh(c) && c.Valid() && c.Snapshot() == rec
    {
      EmailValueObject.RecreateValid(Email(rec.email));
      CreditValueObject.RecreateValid(Credit(rec.availableCredit));
      var email := Email.Create(Some(rec.email)).value;
      var credit := Credit.Create(rec.availableCredit).value;
      c := new Customer.Reconstitute(rec.id, rec.firstName, rec.lastName, email, credit, rec.createdAt, rec.updatedAt);
    }

    /**
     * Upsert on the id; returns the customer as stored. The storage rejects
     * an email another row holds, so callers make sure that it does not.
     */
    method Save(c: Customer) returns (saved: Customer)
      requires Valid() && c.Valid()
      requires !OwnedByAnother(rows, c.id, c.email.value)
      modifies this
      ensures Valid()
      ensures rows == old(rows)[c.id := Upserted(old(rows), c.Snapshot())]
      ensures fresh(saved) && saved.Valid() && saved.Snapshot() == rows[c.id]
    {
      WriteKeepsEmailsUnique(rows, c.id, Upserted(rows, c.Snapshot()));
      rows := rows[c.id := Upserted(rows, c.Snapshot())];
      saved := ToDomain(rows[c.id]);
    }

    method FindById(id: string) returns (found: Option<Customer>)
      requires Valid()
      ensures found.Some? <==> id in rows
      ensures found.Some? ==> fresh(found.value) && found.value.Valid() && found.value.Snapshot() == rows[id]
    {
      if id !in rows {
        return None;
      }
      var c := ToDomain(rows[id]);
      return Some(c);
    }

    /** The customer holding this email, if any (emails are unique, so there is at most one). */
    method FindByEmail(email: string) returns (found: Option<Customer>)
      requires Valid()
      ensures found.None? <==> !EmailTaken(rows, email)
      ensures found.Some? ==> fresh(found.value) && found.value.Valid()
      ensures found.Some? ==> found.value.id in rows && found.value.Snapshot() == rows[found.value.id]
      ensures found.Some? ==> found.value.email.value == email
    {
      var owners := set id | id in rows && rows[id].email == email;
      assert forall id :: id in rows && rows[id].email == email ==> id in owners;
      if owners == {} {
        return None;
      }
      var id :| id in owners;
      var c := ToDomain(rows[id]);
      return Some(c);
    }

    method FindAllSortedByCredit(order: SortOrder) returns (cs: seq<Customer>, ghost listing: seq<CustomerRecord>)
      requires Valid()
      ensures IsSortedListing(listing, rows, order)
      ensures |cs| == |listing|
      ensures forall i :: 0 <= i < |cs| ==> fresh(cs[i]) && cs[i].Valid() && cs[i].Snapshot() == listing[i]
    {
      var recs := AllRecords(rows);
      var sorted := SortByCredit(recs, order);
      PermutationIsListing(sorted, rows, order);
      listing := sorted;
      cs := RebuildAll(sorted);
    }

    /** Every row once, in no particular order. */
    static method AllRecords(rows: map<string, CustomerRecord>) returns (recs: seq<CustomerRecord>)
      requires forall id :: id in rows ==> rows[id].id == id
      ensures multiset(recs) == multiset(rows.Values)
    {
      var pending := rows.Keys;
      ghost var done: set<string> := {};
      recs := [];
      while pending != {}
        invariant done <= rows.Keys && pending == rows.Keys - done
        invariant multiset(recs) == multiset(ValuesAt(rows, done))
        decreases |pending|
      {
        var k :| k in pending;
        AddDistinctValue(rows, done, k);
        recs := recs + [rows[k]];
        done := done + {k};
        pending := pending - {k};
      }
      AllValues(rows, done);
    }

    static method RebuildAll(recs: seq<CustomerRecord>) returns (cs: seq<Customer>)
      requires forall i :: 0 <= i < |recs| ==> RecordValid(recs[i])
      ensures |cs| == |recs|
      ensures forall i :: 0 <= i < |cs| ==> fresh(cs[i]) && cs[i].Valid() && cs[i].Snapshot() == recs[i]
    {
      cs := [];
      var i := 0;
      while i < |recs|
        invariant 0 <= i <= |recs| && |cs| == i
        invariant forall k :: 0 <= k < i ==> fresh(cs[k]) && cs[k].Valid() && cs[k].Snapshot() == recs[k]
      {
        var c := ToDomain(recs[i]);
        cs := cs + [c];
        i := i + 1;
      }
    }

    method Exists(id: string) returns (b: bool)
      ensures b <==> id in rows
    {
      b := id in rows;
    }

    /** Remove the row; the storage rejects an id it does not hold, so callers check first. */
    method Delete(id: string)
      requires Valid() && id in rows
      modifies this
      ensures rows == old(rows) - {id}
      ensures Valid()
    {
      rows := rows - {id};
    }
  }
}
