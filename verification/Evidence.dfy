/** Write-time sealing of operations (`db/evidence.py`): the content hash, the chain hash and the seal itself.

    SHA-256 is a parameter `sha`. The only fact taken for granted about it is that a hex digest has 64
    characters; freedom from collisions is a hypothesis, made only on the strings that a theorem's own
    histories hash (`Ideal`). */
module Evidence {
  import opened Wrappers
  import opened Sequences
  import opened PrefixCode
  import opened SortedKeys
  import opened CanonicalJson

  type Hash = string -> string

  function Repeat(c: char, n: nat): string {
    seq(n, i => c)
  }

  const GENESIS: string := Repeat('0', 64)

  ghost predicate HexDigests(sha: Hash) {
    forall x :: |sha(x)| == 64
  }

  /** Among the strings of `hashed`, no two collide and none hashes to the genesis value. */
  ghost predicate Ideal(sha: Hash, hashed: set<string>) {
    && (forall x, y :: x in hashed && y in hashed && sha(x) == sha(y) ==> x == y)
    && (forall x :: x in hashed ==> sha(x) != GENESIS)
  }

  /** The columns of an operation that the seal covers. */
  datatype Record = Record(
    id: string,
    traceId: string,
    actorId: string,
    artifactDigest: string,
    status: string,
    createdAt: Option<string>)

  datatype Signature = Signature(token: string, keyVersion: int)

  /** One operation of a tenant. A tenant's table is the sequence of its rows in ascending `created_at` order. */
  datatype Row = Row(rec: Record, chainHash: Option<string>, signature: Option<Signature>)

  /** The six hashed fields, under sorted keys. */
  function HashedFields(rec: Record): seq<(string, string)> {
    [("actor_id", rec.actorId),
     ("artifact_digest", rec.artifactDigest),
     ("created_at", if rec.createdAt.Some? then rec.createdAt.value else ""),
     ("id", rec.id),
     ("status", rec.status),
     ("trace_id", rec.traceId)]
  }

  /** The items of the dictionary, in the order in which the code lists them. */
  function Items(rec: Record): seq<(string, string)> {
    [("id", rec.id),
     ("trace_id", rec.traceId),
     ("actor_id", rec.actorId),
     ("artifact_digest", rec.artifactDigest),
     ("status", rec.status),
     ("created_at", if rec.createdAt.Some? then rec.createdAt.value else "")]
  }

  function Content(rec: Record): string {
    Dumps(Items(rec))
  }

  lemma HashedFieldsAscend(rec: Record)
    ensures Ascending(HashedFields(rec))
  {
    assert "actor_id"[1] < "artifact_digest"[1];
    assert Less("actor_id"[1..], "artifact_digest"[1..]);
  }

  lemma AddLast<T>(s: seq<T>, x: T)
    ensures multiset(s + [x]) == multiset(s) + multiset{x}
  {
  }

  lemma OneByOne<T>(a: T, b: T, c: T, d: T, e: T, f: T)
    ensures [a, b, c, d, e, f] == [] + [a] + [b] + [c] + [d] + [e] + [f]
  {
  }

  lemma SixMembers<T>(a: T, b: T, c: T, d: T, e: T, f: T)
    ensures multiset([a, b, c, d, e, f])
         == multiset{a} + multiset{b} + multiset{c} + multiset{d} + multiset{e} + multiset{f}
  {
    OneByOne(a, b, c, d, e, f);
    AddLast([], a);
    AddLast([] + [a], b);
    AddLast([] + [a] + [b], c);
    AddLast([] + [a] + [b] + [c], d);
    AddLast([] + [a] + [b] + [c] + [d], e);
    AddLast([] + [a] + [b] + [c] + [d] + [e], f);
  }

  lemma SumReordered<T>(a: multiset<T>, b: multiset<T>, c: multiset<T>, d: multiset<T>, e: multiset<T>, f: multiset<T>)
    ensures a + b + c + d + e + f == c + d + f + a + e + b
  {
  }

  lemma Reordered<T>(a: T, b: T, c: T, d: T, e: T, f: T)
    ensures multiset([a, b, c, d, e, f]) == multiset([c, d, f, a, e, b])
  {
    SixMembers(a, b, c, d, e, f);
    SixMembers(c, d, f, a, e, b);
    SumReordered(multiset{a}, multiset{b}, multiset{c}, multiset{d}, multiset{e}, multiset{f});
  }

  lemma ItemsAreDistinct(rec: Record)
    ensures DistinctKeys(Items(rec)) && multiset(Items(rec)) == multiset(HashedFields(rec))
  {
    hide Less;
    KeysDiffer(rec);
    var x := Items(rec);
    Reordered(x[0], x[1], x[2], x[3], x[4], x[5]);
  }

  lemma KeysDiffer(rec: Record)
    ensures DistinctKeys(Items(rec))
  {
    hide Less;
    assert |"id"| == 2 && |"trace_id"| == 8 && |"actor_id"| == 8 && |"artifact_digest"| == 15 && |"status"| == 6
           && |"created_at"| == 10;
    assert "trace_id"[0] != "actor_id"[0];
  }

  lemma SameKeys(a: Record, b: Record)
    ensures |HashedFields(a)| == |HashedFields(b)| == 6
    ensures forall i :: 0 <= i < 6 ==> HashedFields(a)[i].0 == HashedFields(b)[i].0
  {
  }

  /** In whatever order the fields are listed, sorting the keys gives the one canonical text. */
  lemma CanonicalOrder(rec: Record, items: seq<(string, string)>)
    requires DistinctKeys(items) && multiset(items) == multiset(Items(rec))
    ensures |items| == 6 && Dumps(items) == Object(HashedFields(rec)) == Content(rec)
  {
    hide Object, SortKeys, Ascending, DistinctKeys, Items, HashedFields;
    SixFields(rec);
    ItemsAreDistinct(rec);
    HashedFieldsAscend(rec);
    SortIsUnique(items, HashedFields(rec));
    SortIsUnique(Items(rec), HashedFields(rec));
    SameLength(items, Items(rec));
  }

  lemma ContentOfFields(rec: Record)
    ensures Content(rec) == Object(HashedFields(rec))
  {
    hide Content, Object, HashedFields, DistinctKeys, Items;
    ItemsAreDistinct(rec);
    CanonicalOrder(rec, Items(rec));
  }

  lemma SixFields(rec: Record)
    ensures |Items(rec)| == 6
  {
  }

  lemma {:induction false} PlainText(s: string)
    requires forall i :: 0 <= i < |s| ==> s[i] == '_' || 'a' <= s[i] <= 'z'
    ensures Encode(ESCAPE, s) == s
  {
    if s != "" {
      hide UnicodeEscape;
      PlainText(s[1..]);
      assert s == [s[0]] + s[1..];
    }
  }

  lemma {:induction false} FieldText(key: string, value: string)
    requires forall i :: 0 <= i < |key| ==> key[i] == '_' || 'a' <= key[i] <= 'z'
    ensures Member((key, value)) == "\"" + key + "\": \"" + Encode(ESCAPE, value) + "\""
  {
    PlainText(key);
  }

  lemma SixMembersText(x: seq<(string, string)>)
    requires |x| == 6
    ensures Object(x) == "{" + (Member(x[0]) + ", " + (Member(x[1]) + ", " + (Member(x[2]) + ", "
                           + (Member(x[3]) + ", " + (Member(x[4]) + ", " + Member(x[5])))))) + "}"
  {
    hide Member;
    assert x[1..][1..] == x[2..] && x[2..][1..] == x[3..] && x[3..][1..] == x[4..] && x[4..][1..] == x[5..];
    assert Members(x[5..]) == Member(x[5]);
    assert Members(x[4..]) == Member(x[4]) + ", " + Members(x[5..]);
    assert Members(x[3..]) == Member(x[3]) + ", " + Members(x[4..]);
    assert Members(x[2..]) == Member(x[2]) + ", " + Members(x[3..]);
    assert Members(x[1..]) == Member(x[1]) + ", " + Members(x[2..]);
  }

  /** The text that is hashed. */
  lemma ContentText(rec: Record)
    ensures var text := (s: string) => Encode(ESCAPE, s);
            Content(rec)
            == "{" + ("\"" + "actor_id" + "\": \"" + text(rec.actorId) + "\"" + ", "
                + ("\"" + "artifact_digest" + "\": \"" + text(rec.artifactDigest) + "\"" + ", "
                + ("\"" + "created_at" + "\": \"" + text(if rec.createdAt.Some? then rec.createdAt.value else "") + "\"" + ", "
                + ("\"" + "id" + "\": \"" + text(rec.id) + "\"" + ", "
                + ("\"" + "status" + "\": \"" + text(rec.status) + "\"" + ", "
                + ("\"" + "trace_id" + "\": \"" + text(rec.traceId) + "\"")))))) + "}"
  {
    hide Content, Encode, Member, Object;
    ContentOfFields(rec);
    SixMembersText(HashedFields(rec));
    FieldText("actor_id", rec.actorId);
    FieldText("artifact_digest", rec.artifactDigest);
    FieldText("created_at", if rec.createdAt.Some? then rec.createdAt.value else "");
    FieldText("id", rec.id);
    FieldText("status", rec.status);
    FieldText("trace_id", rec.traceId);
  }

  function OperationHash(sha: Hash, rec: Record): string {
    sha(Content(rec))
  }

  /** The string that the chain hash of `rec` is the digest of. */
  function LinkInput(sha: Hash, prev: string, rec: Record): string {
    prev + OperationHash(sha, rec)
  }

  function ChainHash(sha: Hash, prev: string, rec: Record): string {
    sha(LinkInput(sha, prev, rec))
  }

  /** The canonical JSON of two operations is the same text only if all six fields agree. */
  lemma ContentInjective(a: Record, b: Record)
    requires Content(a) == Content(b)
    ensures HashedFields(a) == HashedFields(b)
  {
    hide Content, Object, Items, HashedFields, DistinctKeys;
    SameKeys(a, b);
    ContentOfFields(a);
    ContentOfFields(b);
    ObjectInjective(HashedFields(a), HashedFields(b));
  }

  /** Digests have one length, so a link input determines both halves. */
  lemma LinkInputInjective(sha: Hash, p: string, a: Record, q: string, b: Record)
    requires HexDigests(sha) && LinkInput(sha, p, a) == LinkInput(sha, q, b)
    ensures p == q && OperationHash(sha, a) == OperationHash(sha, b)
  {
    var x, y := LinkInput(sha, p, a), LinkInput(sha, q, b);
    assert |OperationHash(sha, a)| == 64 && |OperationHash(sha, b)| == 64;
    assert x[..|x| - 64] == p && y[..|y| - 64] == q;
    assert x[|x| - 64..] == OperationHash(sha, a) && y[|y| - 64..] == OperationHash(sha, b);
  }

  /* ----- Reading the head of the chain, and sealing ----- */

  /** The chain hash of the newest sealed row, as the verifier's walk carries it. */
  function Head(rows: seq<Row>): string {
    if rows == [] then GENESIS
    else
      var last := rows[|rows| - 1].chainHash;
      if last.Some? then last.value else Head(rows[..|rows| - 1])
  }

  /** `get_latest_chain_hash`: the stored value, or genesis when it is absent or empty. */
  function LatestChainHash(rows: seq<Row>): string {
    if Head(rows) == "" then GENESIS else Head(rows)
  }

  predicate Sealed(rows: seq<Row>, i: nat) {
    i < |rows| && rows[i].chainHash.Some?
  }

  predicate Unsealed(rows: seq<Row>) {
    forall i :: 0 <= i < |rows| ==> !Sealed(rows, i)
  }

  lemma {:induction false} HeadIsNewest(rows: seq<Row>, k: nat)
    requires Sealed(rows, k)
    requires forall i :: k < i < |rows| ==> !Sealed(rows, i)
    ensures Head(rows) == rows[k].chainHash.value
    decreases |rows|
  {
    if k < |rows| - 1 {
      assert !Sealed(rows, |rows| - 1);
      var init := rows[..|rows| - 1];
      assert forall i :: 0 <= i < |init| ==> (Sealed(init, i) <==> Sealed(rows, i));
      HeadIsNewest(init, k);
    }
  }

  lemma {:induction false} HeadSkips(rows: seq<Row>, k: nat)
    requires k <= |rows|
    requires forall i :: k <= i < |rows| ==> !Sealed(rows, i)
    ensures Head(rows) == Head(rows[..k])
    decreases |rows|
  {
    if k < |rows| {
      assert !Sealed(rows, |rows| - 1);
      var init := rows[..|rows| - 1];
      assert forall i :: 0 <= i < |init| ==> (Sealed(init, i) <==> Sealed(rows, i));
      HeadSkips(init, k);
      assert init[..k] == rows[..k];
    } else {
      assert rows[..k] == rows;
    }
  }

  /** One call of `seal_operation`: the row sealed and the outcome of the best-effort signing. */
  datatype Sealing = Sealing(row: nat, signature: Option<Signature>)

  function Seal(sha: Hash, rows: seq<Row>, s: Sealing): (sealed: seq<Row>)
    requires s.row < |rows|
  {
    rows[s.row := Row(
      rows[s.row].rec,
      Some(ChainHash(sha, LatestChainHash(rows), rows[s.row].rec)),
      if s.signature.Some? then s.signature else rows[s.row].signature)]
  }

  predicate InRange(n: nat, order: seq<Sealing>) {
    forall t :: 0 <= t < |order| ==> order[t].row < n
  }

  /** Each row is sealed at most once. */
  predicate Once(order: seq<Sealing>) {
    forall t, u :: 0 <= t < u < |order| ==> order[t].row != order[u].row
  }

  /** The first `n` seals go to ever newer rows. */
  predicate InCreationOrder(order: seq<Sealing>, n: nat)
    requires n <= |order|
  {
    forall t, u :: 0 <= t < u < n ==> order[t].row < order[u].row
  }

  /** The table after the first `n` seals of `order`, performed one after the other. */
  function SealFirst(sha: Hash, rows: seq<Row>, order: seq<Sealing>, n: nat): (sealed: seq<Row>)
    requires InRange(|rows|, order) && n <= |order|
    ensures |sealed| == |rows|
    ensures forall i :: 0 <= i < |rows| ==> sealed[i].rec == rows[i].rec
  {
    if n == 0 then rows else Seal(sha, SealFirst(sha, rows, order, n - 1), order[n - 1])
  }

  /** What a seal links to: the newest chain hash, or 64 zeros. */
  lemma {:induction false} HeadOfTable(rows: seq<Row>)
    ensures (forall i :: 0 <= i < |rows| ==> rows[i].chainHash.None?) ==> LatestChainHash(rows) == seq(64, _ => '0')
    ensures forall j :: 0 <= j < |rows| && rows[j].chainHash.Some? && (forall i :: j < i < |rows| ==> rows[i].chainHash.None?) ==>
              LatestChainHash(rows) == if rows[j].chainHash.value == "" then seq(64, _ => '0') else rows[j].chainHash.value
  {
    hide Head;
    if forall i :: 0 <= i < |rows| ==> rows[i].chainHash.None? {
      HeadSkips(rows, 0);
      assert rows[..0] == [];
    }
    EmptyTable();
    forall j | 0 <= j < |rows| && rows[j].chainHash.Some? && (forall i :: j < i < |rows| ==> rows[i].chainHash.None?)
      ensures LatestChainHash(rows) == if rows[j].chainHash.value == "" then seq(64, _ => '0') else rows[j].chainHash.value
    {
      HeadIsNewest(rows, j);
    }
  }

  lemma EmptyTable()
    ensures LatestChainHash([]) == GENESIS == seq(64, _ => '0')
  {
    assert GENESIS == seq(64, _ => '0');
  }

  /** The tenant's table, updated in place by each seal, and the archive of public keys. */
  class Ledger {
    var rows: seq<Row>
    var signingKeys: map<int, string>

    constructor (rows: seq<Row>)
      ensures this.rows == rows && signingKeys == map[]
    {
      this.rows := rows;
      signingKeys := map[];
    }

    /** `archive_public_key_if_needed`: a version that is already archived keeps its key. */
    method ArchivePublicKey(version: int, fetched: Option<string>)
      modifies this`signingKeys
      ensures forall v :: v in old(signingKeys) ==> v in signingKeys && signingKeys[v] == old(signingKeys)[v]
      ensures signingKeys.Keys == old(signingKeys).Keys + (if fetched.Some? then {version} else {})
      ensures version !in old(signingKeys) && fetched.Some? ==> signingKeys[version] == fetched.value
    {
      if version !in signingKeys && fetched.Some? {
        signingKeys := signingKeys[version := fetched.value];
      }
    }

    /** `seal_operation`: always sets the chain hash; sets the signature columns only when signing succeeded. */
    method SealOperation(sha: Hash, k: nat, signing: Option<Signature>, fetched: Option<string>)
      requires k < |rows|
      modifies this
      ensures rows == Seal(sha, old(rows), Sealing(k, signing))
      ensures |rows| == |old(rows)| && forall i :: 0 <= i < |rows| && i != k ==> rows[i] == old(rows)[i]
      ensures rows[k].rec == old(rows)[k].rec
      ensures rows[k].signature == if signing.Some? then signing else old(rows)[k].signature
      ensures (forall i :: 0 <= i < |rows| ==> old(rows)[i].chainHash.None?) ==>
                rows[k].chainHash == Some(sha(seq(64, _ => '0') + sha(Content(rows[k].rec))))
      ensures forall j :: 0 <= j < |rows| && old(rows)[j].chainHash.Some?
                          && (forall i :: j < i < |rows| ==> old(rows)[i].chainHash.None?) ==>
                var newest := old(rows)[j].chainHash.value;
                rows[k].chainHash == Some(sha((if newest == "" then seq(64, _ => '0') else newest) + sha(Content(rows[k].rec))))
      ensures signing.None? ==> signingKeys == old(signingKeys)
      ensures signing.Some? ==>
                && signingKeys.Keys == old(signingKeys).Keys + (if fetched.Some? then {signing.value.keyVersion} else {})
                && (signing.value.keyVersion !in old(signingKeys) && fetched.Some? ==>
                      signingKeys[signing.value.keyVersion] == fetched.value)
      ensures forall v :: v in old(signingKeys) ==> v in signingKeys && signingKeys[v] == old(signingKeys)[v]
    {
      hide Content, Head;
      HeadOfTable(rows);
      var prev := LatestChainHash(rows);
      var op := rows[k];
      op := op.(chainHash := Some(ChainHash(sha, prev, op.rec)));
      if signing.Some? {
        op := op.(signature := signing);
        ArchivePublicKey(signing.value.keyVersion, fetched);
      }
      rows := rows[k := op];
    }
  }
}
