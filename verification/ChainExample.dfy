/** Two rows and a hash function on which every hypothesis of the chain theorems holds, whichever row is sealed
    first: what the theorems assume can be met, and both verdicts occur. */
module ChainExample {
  import opened Wrappers
  import opened CanonicalJson
  import opened Evidence
  import opened HashChain
  import opened ChainTheorems

  function Digest(c: char): string { Repeat(c, 64) }

  /** The digest given to the concatenation of two digests. */
  function LinkDigit(c: char, d: char): char {
    if c == '0' && d == '1' then '3'
    else if c == '0' && d == '2' then '4'
    else if c == '3' && d == '2' then '5'
    else if c == '4' && d == '1' then '6'
    else '7'
  }

  function Toy(a: Record, b: Record): Hash {
    x =>
      if x == Content(a) then Digest('1')
      else if x == Content(b) then Digest('2')
      else if |x| == 128 then Digest(LinkDigit(x[0], x[64]))
      else Digest('7')
  }

  lemma ContentIsObject(rec: Record)
    ensures Content(rec) != [] && Content(rec)[0] == '{'
  {
    hide Members;
  }

  lemma DigestsDiffer(c: char, d: char)
    ensures |Digest(c)| == 64 && Digest(c)[0] == c
    ensures Digest(c) == Digest(d) <==> c == d
  {
    assert Digest(c)[0] == c && Digest(d)[0] == d;
  }

  lemma ToyIsHex(a: Record, b: Record)
    ensures HexDigests(Toy(a, b))
  {
    hide Content, Digest, LinkDigit;
    forall x ensures |Toy(a, b)(x)| == 64 {
      DigestsDiffer('1', '1');
      DigestsDiffer('2', '2');
      DigestsDiffer('7', '7');
      DigestsDiffer(if |x| == 128 then LinkDigit(x[0], x[64]) else '7', '7');
    }
  }

  lemma ToyContents(a: Record, b: Record)
    requires Content(a) != Content(b)
    ensures OperationHash(Toy(a, b), a) == Digest('1') && OperationHash(Toy(a, b), b) == Digest('2')
  {
    hide Content, Digest;
  }

  lemma ToyLinks(a: Record, b: Record, c: char, d: char)
    requires c != '{'
    ensures Toy(a, b)(Digest(c) + Digest(d)) == Digest(LinkDigit(c, d))
  {
    hide Content;
    ContentIsObject(a);
    ContentIsObject(b);
    var x := Digest(c) + Digest(d);
    assert x[0] == c && x[64] == d && |x| == 128;
  }

  function Fresh(a: Record, b: Record): (rows: seq<Row>)
    ensures |rows| == 2
  {
    [Row(a, None, None)] + [Row(b, None, None)]
  }

  function Order(first: nat, second: nat): (order: seq<Sealing>)
    ensures |order| == 2
    ensures first < 2 && second < 2 ==> InRange(2, order)
    ensures first != second ==> Once(order)
  {
    [Sealing(first, None)] + [Sealing(second, None)]
  }

  lemma SealOne(a: Record, b: Record, rows: seq<Row>, k: nat, head: char, digest: char)
    requires Content(a) != Content(b) && |rows| == 2 && rows[0].rec == a && rows[1].rec == b && k < 2
    requires LatestChainHash(rows) == Digest(head) && head != '{'
    requires digest == LinkDigit(head, if k == 0 then '1' else '2')
    ensures LinkInput(Toy(a, b), LatestChainHash(rows), rows[k].rec) == Digest(head) + Digest(if k == 0 then '1' else '2')
    ensures Seal(Toy(a, b), rows, Sealing(k, None)) == rows[k := rows[k].(chainHash := Some(Digest(digest)))]
  {
    hide Content, Digest, Toy, OperationHash, LatestChainHash, LinkDigit;
    ToyContents(a, b);
    ToyLinks(a, b, head, if k == 0 then '1' else '2');
  }

  lemma {:induction false} HeadOfTwo(rows: seq<Row>, c: char)
    requires |rows| == 2
    requires rows[1].chainHash == Some(Digest(c)) || (rows[1].chainHash == None && rows[0].chainHash == Some(Digest(c)))
    ensures Head(rows) == LatestChainHash(rows) == Digest(c)
  {
    DigestsDiffer(c, c);
    assert rows[..1][0] == rows[0];
    hide Digest;
    if rows[1].chainHash == None {
      assert Head(rows) == Head(rows[..1]);
    }
  }

  lemma {:induction false} HeadOfNone(rows: seq<Row>)
    requires forall i :: 0 <= i < |rows| ==> rows[i].chainHash == None
    ensures Head(rows) == LatestChainHash(rows) == Digest('0')
  {
    DigestsDiffer('0', '0');
    assert GENESIS == Digest('0');
    hide Digest;
    HeadSkips(rows, 0);
    assert rows[..0] == [];
  }

  /** The table after both rows are sealed. */
  function BothSealed(a: Record, b: Record, c: char, d: char): seq<Row> {
    [Row(a, Some(Digest(c)), None)] + [Row(b, Some(Digest(d)), None)]
  }

  lemma SealedInOrder(a: Record, b: Record)
    requires Content(a) != Content(b)
    ensures var sha, rows, order := Toy(a, b), Fresh(a, b), Order(0, 1);
            && SealFirst(sha, rows, order, 2) == BothSealed(a, b, '3', '5')
            && SealInputs(sha, rows, order) == {Digest('0') + Digest('1'), Digest('3') + Digest('2')}
  {
    hide Toy, Content, Digest, LinkInput, LatestChainHash, Seal;
    var sha, rows, order := Toy(a, b), Fresh(a, b), Order(0, 1);
    HeadOfNone(rows);
    SealOne(a, b, rows, 0, '0', '3');
    var once := SealFirst(sha, rows, order, 1);
    assert SealFirst(sha, rows, order, 0) == rows;
    assert once == rows[0 := rows[0].(chainHash := Some(Digest('3')))];
    HeadOfTwo(once, '3');
    SealOne(a, b, once, 1, '3', '5');
    assert SealFirst(sha, rows, order, 2) == BothSealed(a, b, '3', '5');
    assert SealInputs(sha, rows, order) == {LinkInput(sha, LatestChainHash(rows), a), LinkInput(sha, LatestChainHash(once), b)};
  }

  lemma SealedOutOfOrder(a: Record, b: Record)
    requires Content(a) != Content(b)
    ensures var sha, rows, order := Toy(a, b), Fresh(a, b), Order(1, 0);
            && SealFirst(sha, rows, order, 2) == BothSealed(a, b, '6', '4')
            && SealInputs(sha, rows, order) == {Digest('0') + Digest('2'), Digest('4') + Digest('1')}
  {
    hide Toy, Content, Digest, LinkInput, LatestChainHash, Seal;
    var sha, rows, order := Toy(a, b), Fresh(a, b), Order(1, 0);
    HeadOfNone(rows);
    SealOne(a, b, rows, 1, '0', '4');
    var once := SealFirst(sha, rows, order, 1);
    assert SealFirst(sha, rows, order, 0) == rows;
    assert once == rows[1 := rows[1].(chainHash := Some(Digest('4')))];
    HeadOfTwo(once, '4');
    SealOne(a, b, once, 0, '4', '6');
    assert SealFirst(sha, rows, order, 2) == BothSealed(a, b, '6', '4');
    assert SealInputs(sha, rows, order) == {LinkInput(sha, LatestChainHash(rows), b), LinkInput(sha, LatestChainHash(once), a)};
  }

  lemma WalkedInputs(a: Record, b: Record, c: char, d: char)
    requires Content(a) != Content(b)
    ensures WalkInputs(Toy(a, b), BothSealed(a, b, c, d)) == {Digest('0') + Digest('1'), Digest(c) + Digest('2')}
  {
    hide Toy, Content, Digest;
    var rows := BothSealed(a, b, c, d);
    ToyContents(a, b);
    HeadOfNone([]);
    assert rows[..0] == [] && rows[..1] == [rows[0]];
    assert Head(rows[..0]) == Digest('0') && Head(rows[..1]) == Digest(c);
    assert Sealed(rows, 0) && Sealed(rows, 1);
    assert LinkInput(Toy(a, b), Head(rows[..0]), rows[0].rec) == Digest('0') + Digest('1');
    assert LinkInput(Toy(a, b), Head(rows[..1]), rows[1].rec) == Digest(c) + Digest('2');
  }

  /** Concatenations of digests do not collide if their table entries differ. */
  lemma ToyIsIdeal(a: Record, b: Record, pairs: set<(char, char)>, hashed: set<string>)
    requires forall p :: p in pairs ==> p.0 != '{' && LinkDigit(p.0, p.1) != '0'
    requires forall p, q :: p in pairs && q in pairs && LinkDigit(p.0, p.1) == LinkDigit(q.0, q.1) ==> p == q
    requires hashed == set p | p in pairs :: Digest(p.0) + Digest(p.1)
    ensures Ideal(Toy(a, b), hashed)
  {
    hide Toy, Digest, LinkDigit;
    var sha := Toy(a, b);
    assert GENESIS == Digest('0') by { GenesisIsZero(); }
    forall x | x in hashed ensures sha(x) != GENESIS {
      var p :| p in pairs && x == Digest(p.0) + Digest(p.1);
      ToyLinks(a, b, p.0, p.1);
      DigestsDiffer(LinkDigit(p.0, p.1), '0');
    }
    forall x, y | x in hashed && y in hashed && sha(x) == sha(y) ensures x == y {
      var p :| p in pairs && x == Digest(p.0) + Digest(p.1);
      var q :| q in pairs && y == Digest(q.0) + Digest(q.1);
      ToyLinks(a, b, p.0, p.1);
      ToyLinks(a, b, q.0, q.1);
      DigestsDiffer(LinkDigit(p.0, p.1), LinkDigit(q.0, q.1));
    }
  }

  lemma GenesisIsZero()
    ensures GENESIS == Digest('0')
  {
  }

  lemma IdealInOrder(a: Record, b: Record)
    requires Content(a) != Content(b)
    ensures var sha, rows, order := Toy(a, b), Fresh(a, b), Order(0, 1);
            Ideal(sha, SealInputs(sha, rows, order) + WalkInputs(sha, SealFirst(sha, rows, order, 2)))
  {
    hide Toy, Content, Digest, Ideal, SealFirst, SealInputs, WalkInputs, Fresh, Order;
    SealedInOrder(a, b);
    WalkedInputs(a, b, '3', '5');
    var x, y := Digest('0') + Digest('1'), Digest('3') + Digest('2');
    assert {x, y} + {x, y} == {x, y};
    var pairs := {('0', '1'), ('3', '2')};
    assert {x, y} == set p | p in pairs :: Digest(p.0) + Digest(p.1);
    ToyIsIdeal(a, b, pairs, {x, y});
  }

  lemma IdealOutOfOrder(a: Record, b: Record)
    requires Content(a) != Content(b)
    ensures var sha, rows, order := Toy(a, b), Fresh(a, b), Order(1, 0);
            Ideal(sha, SealInputs(sha, rows, order) + WalkInputs(sha, SealFirst(sha, rows, order, 2)))
  {
    hide Toy, Content, Digest, Ideal, SealFirst, SealInputs, WalkInputs, Fresh, Order;
    SealedOutOfOrder(a, b);
    WalkedInputs(a, b, '6', '4');
    var x, y := Digest('0') + Digest('2'), Digest('4') + Digest('1');
    var z, v := Digest('0') + Digest('1'), Digest('6') + Digest('2');
    assert {x, y} + {z, v} == {x, y, z, v};
    var pairs := {('0', '2'), ('4', '1'), ('0', '1'), ('6', '2')};
    assert {x, y, z, v} == set p | p in pairs :: Digest(p.0) + Digest(p.1);
    ToyIsIdeal(a, b, pairs, {x, y, z, v});
  }

  lemma FreshIsUnsealed(a: Record, b: Record)
    ensures Unsealed(Fresh(a, b))
  {
  }

  lemma Orders()
    ensures InCreationOrder(Order(0, 1), 2) && !InCreationOrder(Order(1, 0), 2)
  {
    assert Order(1, 0)[0].row == 1 && Order(1, 0)[1].row == 0;
  }

  /** For any two operations with different content: all hypotheses of `SealOrderExact` hold for both orders, and the
      verdicts differ. */
  lemma HypothesesCanBeMet(a: Record, b: Record)
    requires Content(a) != Content(b)
    ensures var sha, rows := Toy(a, b), Fresh(a, b);
            && HexDigests(sha) && Unsealed(rows)
            && (forall order :: order in {Order(0, 1), Order(1, 0)} ==>
                  && InRange(2, order) && Once(order)
                  && Ideal(sha, SealInputs(sha, rows, order) + WalkInputs(sha, SealFirst(sha, rows, order, 2))))
            && Report(sha, SealFirst(sha, rows, Order(0, 1), 2)).valid
            && !Report(sha, SealFirst(sha, rows, Order(1, 0), 2)).valid
  {
    hide Toy, Content, Ideal, HexDigests, Report, SealFirst, SealInputs, WalkInputs, Fresh, Order, Unsealed, InRange, Once, InCreationOrder;
    var sha, rows := Toy(a, b), Fresh(a, b);
    ToyIsHex(a, b);
    FreshIsUnsealed(a, b);
    Orders();
    IdealInOrder(a, b);
    SealOrderExact(sha, rows, Order(0, 1));
    IdealOutOfOrder(a, b);
    SealOrderExact(sha, rows, Order(1, 0));
  }
}
