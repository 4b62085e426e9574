/** The audit export (`api/v1/audit.py`) and the offline verifier that is handed to an auditor
    (`tools/verify_offline.py`). ECDSA is a parameter; what is expected of it is `IdealSignatures`. */
module OfflineEvidence {
  import opened Wrappers
  import opened SortedKeys
  import opened CanonicalJson
  import opened Evidence

  /** The `operation` member of an audit doc. */
  datatype ExportedOperation = ExportedOperation(
    id: string,
    traceId: string,
    actorId: string,
    actorType: string,
    documentId: string,
    artifactDigest: string,
    policyVersion: string,
    status: string,
    createdAt: Option<string>,
    completedAt: Option<string>)

  datatype AuditExport = AuditExport(
    operation: Option<ExportedOperation>,
    digitalSignature: Option<string>,
    signatureAtWriteTime: bool,
    signingKeyVersion: Option<int>,
    publicKeyPem: Option<string>)

  /** The columns exported beside those that are hashed. */
  datatype Context = Context(actorType: string, documentId: string, policyVersion: string, completedAt: Option<string>)

  /** The key or the signature may not even decode. */
  datatype Check = Valid | Invalid | Malformed

  /** Signing and verifying with the key pair whose public half is `pem`; messages are hex, signatures base64. */
  datatype Ecdsa = Ecdsa(sign: (string, string) -> string, verify: (string, string, string) -> Check)

  /** A signature verifies for the message it was made for and for no other, and base64 has no colon. */
  ghost predicate IdealSignatures(ecdsa: Ecdsa) {
    && (forall pem, m, n :: ecdsa.verify(pem, n, ecdsa.sign(pem, m)) == if m == n then Valid else Invalid)
    && (forall pem, m :: ':' !in ecdsa.sign(pem, m))
  }

  function ExportOperation(rec: Record, context: Context): ExportedOperation {
    ExportedOperation(rec.id, rec.traceId, rec.actorId, context.actorType, context.documentId, rec.artifactDigest,
                      context.policyVersion, rec.status, rec.createdAt, context.completedAt)
  }

  /** The digital signature of an export: the write-time one when the row has it, else one made while reading. */
  function ExportRow(row: Row, context: Context, readTime: Option<string>, pem: Option<string>): AuditExport {
    AuditExport(
      Some(ExportOperation(row.rec, context)),
      if row.signature.Some? then Some(row.signature.value.token) else readTime,
      row.signature.Some?,
      if row.signature.Some? then Some(row.signature.value.keyVersion) else None,
      if row.signature.Some? || readTime.Some? then pem else None)
  }

  /** The items of the verifier's own dictionary, in the order in which it lists them. */
  function ExportedItems(op: ExportedOperation): seq<(string, string)> {
    [("id", op.id),
     ("trace_id", op.traceId),
     ("actor_id", op.actorId),
     ("artifact_digest", op.artifactDigest),
     ("status", op.status),
     ("created_at", if op.createdAt.None? then "" else op.createdAt.value)]
  }

  /** The verifier's own copy of the content hash. */
  function RecomputedHash(sha: Hash, op: ExportedOperation): string {
    sha(Dumps(ExportedItems(op)))
  }

  /** The index of the first `c` in `s`, or the length of `s`. */
  function IndexOf(s: string, c: char): (i: nat)
    ensures i <= |s| && c !in s[..i]
    ensures i < |s| ==> s[i] == c
  {
    if s == "" || s[0] == c then 0 else 1 + IndexOf(s[1..], c)
  }

  const VAULT: string := "vault:"

  /** `vault:vN:<b64>` becomes `<b64>`; anything else is left as it is. */
  function StripVaultPrefix(signature: string): string {
    if VAULT <= signature then
      var rest := signature[|VAULT|..];
      var colon := IndexOf(rest, ':');
      if colon < |rest| then rest[colon + 1..] else signature
    else signature
  }

  function VaultToken(version: string, b64: string): string {
    VAULT + version + ":" + b64
  }

  lemma {:induction false} IndexOfFirst(before: string, c: char, after: string)
    requires c !in before
    ensures IndexOf(before + [c] + after, c) == |before|
  {
    if before == "" {
      assert before + [c] + after == [c] + after;
    } else {
      IndexOfFirst(before[1..], c, after);
      assert (before + [c] + after)[1..] == before[1..] + [c] + after;
      assert before[0] in before;
    }
  }

  lemma StripInvertsToken(version: string, b64: string)
    requires ':' !in version
    ensures VaultToken(version, b64) != ""
    ensures StripVaultPrefix(VaultToken(version, b64)) == b64
  {
    var token, rest := VaultToken(version, b64), version + ":" + b64;
    assert token == VAULT + rest && token[..|VAULT|] == VAULT && token[|VAULT|..] == rest;
    IndexOfFirst(version, ':', b64);
    assert rest == version + [':'] + b64 && rest[|version| + 1..] == b64;
  }

  /** A signature is left as it is exactly if it lacks the prefix or has no colon behind it. */
  lemma StripKeepsBareSignature(signature: string)
    ensures StripVaultPrefix(signature) == signature <==> !(VAULT <= signature && ':' in signature[|VAULT|..])
  {
    if VAULT <= signature {
      var rest := signature[|VAULT|..];
      var colon := IndexOf(rest, ':');
      assert colon == |rest| ==> rest[..colon] == rest;
      assert colon < |rest| ==> rest[colon] == ':';
    }
  }

  lemma VaultHasColon(s: string)
    requires VAULT <= s
    ensures ':' in s
  {
    assert s[5] == VAULT[5] == ':';
  }

  datatype Note =
    | MissingOperation
    | MissingSignature
    | MissingKey
    | ExportAgainWithKey
    | HashRecomputed(hash: string)
    | SignedAt(writeTime: bool, keyVersion: Option<int>)
    | SignatureChecked(valid: bool)

  /** The operation, a signature and a public key are all there. */
  predicate Complete(doc: AuditExport) {
    && doc.operation.Some?
    && doc.digitalSignature.Some? && doc.digitalSignature.value != ""
    && doc.publicKeyPem.Some? && doc.publicKeyPem.value != ""
  }

  /** What the check of a complete export says of the hash recomputed from the fields shown. */
  function Checked(sha: Hash, ecdsa: Ecdsa, doc: AuditExport): Check
    requires Complete(doc)
  {
    ecdsa.verify(doc.publicKeyPem.value, RecomputedHash(sha, doc.operation.value),
                 StripVaultPrefix(doc.digitalSignature.value))
  }

  /** The signature verifies for the hash recomputed from the fields shown. */
  predicate Authentic(sha: Hash, ecdsa: Ecdsa, doc: AuditExport) {
    Complete(doc) && Checked(sha, ecdsa, doc) == Valid
  }

  datatype Verdict = Verdict(ok: bool, notes: seq<Note>) | Raised

  /** `verify_export`: the verdict and the report lines. A key or signature that does not decode raises. */
  method VerifyExport(sha: Hash, ecdsa: Ecdsa, doc: AuditExport) returns (r: Verdict)
    ensures (r.Verdict? && r.ok) <==> Authentic(sha, ecdsa, doc)
    ensures r == Raised <==> Complete(doc) && Checked(sha, ecdsa, doc) == Malformed
    ensures Complete(doc) && r.Verdict? ==>
              r.notes == [HashRecomputed(RecomputedHash(sha, doc.operation.value)),
                          SignedAt(doc.signatureAtWriteTime, doc.signingKeyVersion), SignatureChecked(r.ok)]
    ensures !Complete(doc) ==>
              r == Verdict(false, if doc.operation.None? then [MissingOperation]
                                  else if doc.digitalSignature in {None, Some("")} then [MissingSignature]
                                  else [MissingKey, ExportAgainWithKey])
  {
    hide RecomputedHash, StripVaultPrefix;
    if doc.operation.None? {
      return Verdict(false, [MissingOperation]);
    }
    if doc.digitalSignature.None? || doc.digitalSignature.value == "" {
      return Verdict(false, [MissingSignature]);
    }
    if doc.publicKeyPem.None? || doc.publicKeyPem.value == "" {
      return Verdict(false, [MissingKey, ExportAgainWithKey]);
    }
    var opHash := RecomputedHash(sha, doc.operation.value);
    var notes := [HashRecomputed(opHash)];
    notes := notes + [SignedAt(doc.signatureAtWriteTime, doc.signingKeyVersion)];
    var check := ecdsa.verify(doc.publicKeyPem.value, opHash, StripVaultPrefix(doc.digitalSignature.value));
    if check == Malformed {
      return Raised;
    }
    notes := notes + [SignatureChecked(check == Valid)];
    r := Verdict(check == Valid, notes);
  }

  /** The auditor recomputes the server's hash, whatever the operation, a missing `created_at` included, and in
      whatever order either side lists the six fields. */
  lemma RecomputedHashAgrees(sha: Hash, rec: Record, context: Context, items: seq<(string, string)>)
    requires DistinctKeys(items) && multiset(items) == multiset(ExportedItems(ExportOperation(rec, context)))
    ensures items != [] && sha(Dumps(items)) == OperationHash(sha, rec)
    ensures RecomputedHash(sha, ExportOperation(rec, context)) == OperationHash(sha, rec)
  {
    assert ExportedItems(ExportOperation(rec, context)) == Items(rec);
    hide Dumps, Items, ExportedItems, DistinctKeys, HashedFields;
    CanonicalOrder(rec, items);
  }

  lemma SameHash(sha: Hash, rec: Record, context: Context)
    ensures RecomputedHash(sha, ExportOperation(rec, context)) == OperationHash(sha, rec)
  {
    ItemsAreDistinct(rec);
    RecomputedHashAgrees(sha, rec, context, ExportedItems(ExportOperation(rec, context)));
  }

  /** An export that carries a write-time signature and the matching key is authentic exactly when none of the
      six hashed fields changed since the operation was sealed. */
  lemma AuthenticIffUnchanged(
      sha: Hash, ecdsa: Ecdsa, pem: string, version: string, sealedAs: Record, row: Row, context: Context,
      readTime: Option<string>)
    requires IdealSignatures(ecdsa) && pem != "" && ':' !in version
    requires Ideal(sha, {Content(sealedAs), Content(row.rec)})
    requires row.signature.Some?
    requires row.signature.value.token == VaultToken(version, ecdsa.sign(pem, OperationHash(sha, sealedAs)))
    ensures Authentic(sha, ecdsa, ExportRow(row, context, readTime, Some(pem)))
       <==> HashedFields(row.rec) == HashedFields(sealedAs)
  {
    hide RecomputedHash, StripVaultPrefix, VaultToken, Content, Object, HashedFields;
    SameHash(sha, row.rec, context);
    ContentOfFields(row.rec);
    ContentOfFields(sealedAs);
    StripInvertsToken(version, ecdsa.sign(pem, OperationHash(sha, sealedAs)));
    if Content(row.rec) == Content(sealedAs) {
      ContentInjective(row.rec, sealedAs);
    }
  }

  /* ----- From the seal to the auditor ----- */

  /** A row whose signature was made over its own fields is authentic. */
  lemma AuthenticAsSealed(
      sha: Hash, ecdsa: Ecdsa, pem: string, version: string, row: Row, context: Context, readTime: Option<string>)
    requires IdealSignatures(ecdsa) && pem != "" && ':' !in version
    requires row.signature.Some? && row.signature.value.token == VaultToken(version, ecdsa.sign(pem, sha(Content(row.rec))))
    ensures Authentic(sha, ecdsa, ExportRow(row, context, readTime, Some(pem)))
  {
    hide RecomputedHash, StripVaultPrefix, VaultToken, Content;
    SameHash(sha, row.rec, context);
    StripInvertsToken(version, ecdsa.sign(pem, sha(Content(row.rec))));
  }

  /** Sealing with a Vault signature over the operation hash, then exporting with the matching key: the auditor's check
      succeeds. */
  method SealThenExport(
      ledger: Ledger, sha: Hash, ecdsa: Ecdsa, pem: string, version: string, keyVersion: int, k: nat, context: Context,
      readTime: Option<string>)
    returns (doc: AuditExport)
    requires k < |ledger.rows| && IdealSignatures(ecdsa) && pem != "" && ':' !in version
    modifies ledger
    ensures Authentic(sha, ecdsa, doc)
    ensures k < |ledger.rows| && doc == ExportRow(ledger.rows[k], context, readTime, Some(pem))
    ensures doc.signatureAtWriteTime && doc.signingKeyVersion == Some(keyVersion)
  {
    hide Content, Authentic;
    var token := VaultToken(version, ecdsa.sign(pem, OperationHash(sha, ledger.rows[k].rec)));
    ledger.SealOperation(sha, k, Some(Signature(token, keyVersion)), Some(pem));
    doc := ExportRow(ledger.rows[k], context, readTime, Some(pem));
    AuthenticAsSealed(sha, ecdsa, pem, version, ledger.rows[k], context, readTime);
  }

  /** What may happen to the table later: another seal, or edited columns of a row. */
  datatype Change = LaterSeal(row: nat, signing: Option<Signature>) | LaterEdit(row: nat, rec: Record)

  ghost function After(sha: Hash, rows: seq<Row>, changes: seq<Change>): (after: seq<Row>)
    ensures |after| == |rows|
  {
    if changes == [] then rows
    else
      var before := After(sha, rows, changes[..|changes| - 1]);
      match changes[|changes| - 1]
      case LaterSeal(row, signing) => if row < |rows| then Seal(sha, before, Sealing(row, signing)) else before
      case LaterEdit(row, rec) => if row < |rows| then before[row := before[row].(rec := rec)] else before
  }

  lemma {:induction false} SignatureStays(sha: Hash, rows: seq<Row>, changes: seq<Change>, k: nat)
    requires k < |rows|
    requires forall i :: 0 <= i < |changes| && changes[i].LaterSeal? && changes[i].row == k ==> changes[i].signing.None?
    ensures After(sha, rows, changes)[k].signature == rows[k].signature
  {
    hide ChainHash, LatestChainHash;
    if changes != [] {
      SignatureStays(sha, rows, changes[..|changes| - 1], k);
    }
  }

  /** Whatever is sealed or edited later, as long as the row itself is not signed again: its export is authentic if and only
      if its six hashed fields are those it was sealed with. */
  lemma {:induction false} AuthenticUntilChanged(
      sha: Hash, ecdsa: Ecdsa, pem: string, version: string, rows: seq<Row>, changes: seq<Change>, k: nat,
      context: Context, readTime: Option<string>)
    requires IdealSignatures(ecdsa) && pem != "" && ':' !in version && k < |rows|
    requires rows[k].signature.Some?
    requires rows[k].signature.value.token == VaultToken(version, ecdsa.sign(pem, sha(Content(rows[k].rec))))
    requires forall i :: 0 <= i < |changes| && changes[i].LaterSeal? && changes[i].row == k ==> changes[i].signing.None?
    requires Ideal(sha, {Content(rows[k].rec), Content(After(sha, rows, changes)[k].rec)})
    ensures var row := After(sha, rows, changes)[k];
            Authentic(sha, ecdsa, ExportRow(row, context, readTime, Some(pem))) <==> HashedFields(row.rec) == HashedFields(rows[k].rec)
  {
    hide Content, HashedFields, Authentic, After, VaultToken;
    SignatureStays(sha, rows, changes, k);
    AuthenticIffUnchanged(sha, ecdsa, pem, version, rows[k].rec, After(sha, rows, changes)[k], context, readTime);
  }

  /** The fallback for rows without a write-time signature signs the whole exported view, not the content hash.
      Such an export is never authentic offline, even when nothing changed. */
  lemma ReadTimeSignatureIsNeverAuthentic(
      sha: Hash, ecdsa: Ecdsa, pem: string, view: string, row: Row, context: Context)
    requires IdealSignatures(ecdsa) && HexDigests(sha) && pem != ""
    requires row.signature.None? && |view| > 64
    ensures !Authentic(sha, ecdsa, ExportRow(row, context, Some(ecdsa.sign(pem, view)), Some(pem)))
  {
    StripKeepsBareSignature(ecdsa.sign(pem, view));
    if VAULT <= ecdsa.sign(pem, view) {
      VaultHasColon(ecdsa.sign(pem, view));
    }
  }
}
