/** The two tables of the directory (contacts and administrators), the ORM
    session that writes to the contact table, and password hashing over an
    abstract hash. */
module Models {
  import opened Outcomes

  // Declared column widths (String(n)) of the two tables.
  const FullNameWidth: nat := 100
  const PhoneWidth: nat := 20
  const EmailWidth: nat := 100

  /** The five user-editable fields of a contact, as one unit: what a form or a
      spreadsheet row supplies. Only the full name is non-nullable. */
  datatype Entry = Entry(
    fullName: string,
    workPhone: Option<string>,
    mobilePhone: Option<string>,
    email: Option<string>,
    notes: Option<string>)

  /** A row of the contact table: the primary key and the five fields. */
  datatype Contact = Contact(
    id: nat,
    fullName: string,
    workPhone: Option<string>,
    mobilePhone: Option<string>,
    email: Option<string>,
    notes: Option<string>)
  {
    /** The five fields without the key. */
    function Fields(): Entry {
      Entry(fullName, workPhone, mobilePhone, email, notes)
    }
  }

  /** The row the database stores for `e` under the key `id`. */
  function ContactOf(id: nat, e: Entry): Contact {
    Contact(id, e.fullName, e.workPhone, e.mobilePhone, e.email, e.notes)
  }

  /** A nullable text value fits a String(width) column. */
  predicate FitsWidth(v: Option<string>, width: nat) {
    v.None? || |v.value| <= width
  }

  /** All five fields fit their declared columns (notes is Text: unbounded). */
  predicate FitsColumns(e: Entry) {
    && |e.fullName| <= FullNameWidth
    && FitsWidth(e.workPhone, PhoneWidth)
    && FitsWidth(e.mobilePhone, PhoneWidth)
    && FitsWidth(e.email, EmailWidth)
  }

  /** The contact table is keyed by its primary key: every row sits under its
      own id, and every id is below the next one the database will assign. */
  ghost predicate KeyedById(table: map<nat, Contact>, nextId: nat) {
    forall id :: id in table ==> table[id].id == id && id < nextId
  }

  /** Because the table is keyed by id, no two rows share an id. */
  lemma PrimaryKeyUnique(table: map<nat, Contact>, nextId: nat, a: Contact, b: Contact)
    requires KeyedById(table, nextId)
    requires a in table.Values && b in table.Values && a.id == b.id
    ensures a == b
  {
    var ka :| ka in table && table[ka] == a;
    var kb :| kb in table && table[kb] == b;
  }

  /** The table after inserting `es` in order, under the keys `next`,
      `next + 1`, ... (autoincrement). */
  function Appended(table: map<nat, Contact>, next: nat, es: seq<Entry>): map<nat, Contact>
    decreases |es|
  {
    if es == [] then table
    else Appended(table[next := ContactOf(next, es[0])], next + 1, es[1..])
  }

  /** Inserting `es` adds exactly one row per entry, under the keys `next`,
      ..., `next + |es| - 1`, and keeps every existing row as it was. */
  lemma {:induction false} AppendedSpec(table: map<nat, Contact>, next: nat, es: seq<Entry>)
    requires KeyedById(table, next)
    ensures KeyedById(Appended(table, next, es), next + |es|)
    ensures forall id :: id in Appended(table, next, es) <==> id in table || next <= id < next + |es|
    ensures forall id :: id in table ==> Appended(table, next, es)[id] == table[id]
    ensures forall k :: 0 <= k < |es| ==> Appended(table, next, es)[next + k] == ContactOf(next + k, es[k])
    decreases |es|
  {
    if es != [] {
      var t' := table[next := ContactOf(next, es[0])];
      AppendedSpec(t', next + 1, es[1..]);
      forall k | 0 <= k < |es|
        ensures Appended(table, next, es)[next + k] == ContactOf(next + k, es[k])
      {
        if k > 0 {
          assert es[1..][k - 1] == es[k];
        }
      }
    }
  }

  /** Inserting `es` grows the table by exactly |es| rows: nothing is
      overwritten (import appends, it never upserts). */
  lemma {:induction false} AppendedSize(table: map<nat, Contact>, next: nat, es: seq<Entry>)
    requires KeyedById(table, next)
    ensures |Appended(table, next, es)| == |table| + |es|
    decreases |es|
  {
    if es != [] {
      var t' := table[next := ContactOf(next, es[0])];
      assert next !in table;
      assert t'.Keys == table.Keys + {next};
      AppendedSize(t', next + 1, es[1..]);
    }
  }

  /** The contact table together with the ORM session that writes to it.
      `pending` holds the entries added to the session and not yet committed;
      `commits` counts the commits issued. */
  class Database {
    var contacts: map<nat, Contact>
    var nextId: nat
    var pending: seq<Entry>
    var commits: nat

    /** Keys are ids, and no stored or pending contact has an empty full name
        (every write path checks the name first). */
    ghost predicate Valid()
      reads this
    {
      && KeyedById(contacts, nextId)
      && (forall id :: id in contacts ==> contacts[id].fullName != "")
      && (forall i :: 0 <= i < |pending| ==> pending[i].fullName != "")
    }

    constructor ()
      ensures Valid()
      ensures contacts == map[] && pending == [] && commits == 0
    {
      contacts, nextId, pending, commits := map[], 0, [], 0;
    }

    /** db.session.add of a new contact: queued, not yet written. */
    method Add(e: Entry)
      requires Valid()
      requires e.fullName != ""
      modifies this
      ensures Valid()
      ensures pending == old(pending) + [e]
      ensures contacts == old(contacts) && nextId == old(nextId) && commits == old(commits)
    {
      pending := pending + [e];
    }

    /** db.session.commit: every pending entry becomes a row, in the order it
        was added, under the next free keys. */
    method Commit()
      requires Valid()
      modifies this
      ensures Valid()
      ensures contacts == Appended(old(contacts), old(nextId), old(pending))
      ensures nextId == old(nextId) + |old(pending)|
      ensures pending == [] && commits == old(commits) + 1
    {
      var i := 0;
      while i < |pending|
        invariant 0 <= i <= |pending| && pending == old(pending)
        invariant nextId == old(nextId) + i && commits == old(commits)
        invariant KeyedById(contacts, nextId)
        invariant forall id :: id in contacts ==> contacts[id].fullName != ""
        invariant Appended(old(contacts), old(nextId), pending) == Appended(contacts, nextId, pending[i..])
      {
        assert pending[i..][1..] == pending[i + 1..];
        contacts := contacts[nextId := ContactOf(nextId, pending[i])];
        nextId := nextId + 1;
        i := i + 1;
      }
      assert pending[i..] == [];
      pending := [];
      commits := commits + 1;
    }

    /** The session is discarded at the end of a request: whatever was added
        and not committed is dropped. */
    method Discard()
      requires Valid()
      modifies this
      ensures Valid()
      ensures pending == []
      ensures contacts == old(contacts) && nextId == old(nextId) && commits == old(commits)
    {
      pending := [];
    }

    /** Contact.query.get(id). */
    function Get(id: nat): (r: Option<Contact>)
      reads this
      requires Valid()
      ensures r.Some? <==> id in contacts
      ensures r.Some? ==> r.value == contacts[id] && r.value.id == id
    {
      if id in contacts then Some(contacts[id]) else None
    }

    /** Assigning the five fields of the stored contact `id` and committing:
        the row keeps its key and nothing else changes. */
    method Update(id: nat, e: Entry)
      requires Valid()
      requires id in contacts && e.fullName != "" && pending == []
      modifies this
      ensures Valid()
      ensures contacts == old(contacts)[id := ContactOf(id, e)]
      ensures nextId == old(nextId) && pending == [] && commits == old(commits) + 1
    {
      contacts := contacts[id := ContactOf(id, e)];
      Commit();
    }

    /** db.session.delete of the stored contact `id`, then a commit. */
    method Remove(id: nat)
      requires Valid()
      requires id in contacts && pending == []
      modifies this
      ensures Valid()
      ensures contacts == old(contacts) - {id}
      ensures nextId == old(nextId) && pending == [] && commits == old(commits) + 1
    {
      contacts := contacts - {id};
      Commit();
    }
  }

  /** The password hash library, left abstract: `generate` takes a random salt
      and the password, `check` compares a stored hash with a candidate. */
  datatype Hasher = Hasher(generate: (nat, string) -> string, check: (string, string) -> bool)

  /** What the hash must guarantee: the password it was made from passes, any
      other password fails, and the hash is never the password itself. */
  ghost predicate Sound(h: Hasher) {
    && (forall salt, p :: h.check(h.generate(salt, p), p))
    && (forall salt, p, q :: p != q ==> !h.check(h.generate(salt, p), q))
    && (forall salt, p :: h.generate(salt, p) != p)
  }

  /** The requirements on the hash are consistent: a hasher meeting them exists. */
  lemma SoundHasherExists()
    ensures exists h :: Sound(h)
  {
    var h := Hasher((salt: nat, p: string) => "$" + p, (stored: string, p: string) => stored == "$" + p);
    forall salt: nat, p: string ensures h.generate(salt, p) != p {
      assert |h.generate(salt, p)| == |p| + 1;
    }
    forall salt: nat, p: string, q: string | p != q ensures !h.check(h.generate(salt, p), q) {
      assert ("$" + p)[1..] == p && ("$" + q)[1..] == q;
    }
    assert Sound(h);
  }

  /** An administrator account. Only the hash of the password is kept. */
  class AdminUser {
    const id: nat
    const username: string
    var passwordHash: string

    constructor (id: nat, username: string, passwordHash: string)
      ensures this.id == id && this.username == username && this.passwordHash == passwordHash
    {
      this.id := id;
      this.username := username;
      this.passwordHash := passwordHash;
    }

    /** check_password: the stored hash accepts `password`. */
    function CheckPassword(h: Hasher, password: string): bool
      reads this
    {
      h.check(passwordHash, password)
    }

    /** set_password: stores a fresh hash of `password`, never the password;
        afterwards exactly that password checks. */
    method SetPassword(h: Hasher, salt: nat, password: string)
      modifies this
      ensures passwordHash == h.generate(salt, password)
      ensures Sound(h) ==> passwordHash != password
      ensures Sound(h) ==> CheckPassword(h, password)
      ensures Sound(h) ==> forall q :: q != password ==> !CheckPassword(h, q)
    {
      passwordHash := h.generate(salt, password);
    }
  }

  /** The unique constraint on AdminUser.username. */
  predicate UniqueUsernames(admins: seq<AdminUser>) {
    forall i, j :: 0 <= i < j < |admins| ==> admins[i].username != admins[j].username
  }

  /** AdminUser.query.filter_by(username=...).first(). */
  function FindAdmin(admins: seq<AdminUser>, username: string): (r: Option<AdminUser>)
    ensures r.Some? ==> r.value in admins && r.value.username == username
    ensures r.None? ==> forall a :: a in admins ==> a.username != username
  {
    if admins == [] then None
    else if admins[0].username == username then Some(admins[0])
    else FindAdmin(admins[1..], username)
  }

  /** With unique usernames, the lookup finds the one account of that name. */
  lemma {:induction false} FindAdminUnique(admins: seq<AdminUser>, a: AdminUser)
    requires UniqueUsernames(admins)
    requires a in admins
    ensures FindAdmin(admins, a.username) == Some(a)
  {
    if admins[0] != a {
      assert admins[0].username != a.username by {
        var j :| 0 <= j < |admins| && admins[j] == a;
      }
      assert a in admins[1..];
      FindAdminUnique(admins[1..], a);
    }
  }
}
