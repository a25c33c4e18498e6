/** The enclave client: detecting that the host rolled the enclave's state back, and saving the client. */
module Rollback {

  datatype Option<T> = None | Some(value: T)

  /** Identifier of an enclave state. */
  type Id = nat

  /** What an enclave that supports the detection tells its client with a mail: the state the mail comes from and
      the last state it told this client of before. */
  datatype Header = Header(id: Id, previous: Option<Id>)

  /** A decrypted mail. */
  datatype Mail = Mail(header: Option<Header>, body: seq<int>)

  /** The state last seen, after this mail. */
  function Seen(last: Option<Id>, m: Mail): Option<Id> {
    if m.header.Some? then Some(m.header.value.id) else last
  }

  /** The mail comes from a new state that does not follow the one last seen. */
  predicate Suspicious(last: Option<Id>, m: Mail) {
    m.header.Some? && Some(m.header.value.id) != last && m.header.value.previous != last
  }

  class Client {
    var lastSeen: Option<Id>

    constructor (lastSeen: Option<Id>)
      ensures this.lastSeen == lastSeen
    {
      this.lastSeen := lastSeen;
    }

    /** Take a mail. Reports whether the rollback exception is thrown; the state is taken up in any case. */
    method ProcessMail(m: Mail, ignoreRollback: bool) returns (thrown: bool)
      modifies this
      ensures lastSeen == Seen(old(lastSeen), m)
      ensures thrown <==> Suspicious(old(lastSeen), m) && !ignoreRollback
    {
      thrown := false;
      if m.header.Some? {
        var received := m.header.value.id;
        var previous := lastSeen;
        if Some(received) != previous {
          lastSeen := Some(received);
          if previous != m.header.value.previous && !ignoreRollback {
            thrown := true;
          }
        }
      }
    }

    /** Take a history of mails, going on after each exception. */
    method ProcessAll(ms: seq<Mail>) returns (thrown: seq<bool>)
      modifies this
      ensures |thrown| == |ms| && lastSeen == SeenAfter(old(lastSeen), ms)
      ensures forall i :: 0 <= i < |ms| ==> (thrown[i] <==> Suspicious(SeenAfter(old(lastSeen), ms[..i]), ms[i]))
    {
      hide Suspicious;
      thrown := [];
      var i: nat := 0;
      assert ms[..0] == [];
      while i < |ms|
        invariant i == |thrown| <= |ms| && lastSeen == SeenAfter(old(lastSeen), ms[..i])
        invariant forall j :: 0 <= j < i ==> (thrown[j] <==> Suspicious(SeenAfter(old(lastSeen), ms[..j]), ms[j]))
      {
        var t := ProcessMail(ms[i], false);
        thrown := thrown + [t];
        assert ms[..i + 1][..i] == ms[..i];
        i := i + 1;
      }
      assert ms[..i] == ms;
    }
  }

  /** The state last seen after a history. */
  function SeenAfter(last: Option<Id>, ms: seq<Mail>): Option<Id> {
    if ms == [] then last else Seen(SeenAfter(last, ms[..|ms| - 1]), ms[|ms| - 1])
  }

  /** No mail of the history makes the client throw. */
  ghost predicate Quiet(last: Option<Id>, ms: seq<Mail>) {
    forall i :: 0 <= i < |ms| ==> !Suspicious(SeenAfter(last, ms[..i]), ms[i])
  }

  // ---- What the client accepts -----------------------------------------------------------------

  /** The headers of a history, without those that repeat the state before them. */
  function Collapsed(last: Option<Id>, ms: seq<Mail>): seq<Header> {
    if ms == [] then []
    else
      var before, m := ms[..|ms| - 1], ms[|ms| - 1];
      if m.header.None? || Some(m.header.value.id) == SeenAfter(last, before) then Collapsed(last, before)
      else Collapsed(last, before) + [m.header.value]
  }

  /** Each state names the one before it as its previous one. */
  ghost predicate Linked(last: Option<Id>, hs: seq<Header>) {
    forall i :: 0 <= i < |hs| ==> LinkAt(last, hs, i)
  }

  predicate LinkAt(last: Option<Id>, hs: seq<Header>, i: nat)
    requires i < |hs|
  {
    hs[i].previous == if i == 0 then last else Some(hs[i - 1].id)
  }

  /** The state last seen is the last one of the collapsed history. */
  lemma {:induction false} LastOfCollapsed(last: Option<Id>, ms: seq<Mail>)
    ensures SeenAfter(last, ms) ==
            if Collapsed(last, ms) == [] then last else Some(Collapsed(last, ms)[|Collapsed(last, ms)| - 1].id)
    decreases |ms|
  {
    if ms != [] {
      LastOfCollapsed(last, ms[..|ms| - 1]);
    }
  }

  lemma QuietStep(last: Option<Id>, ms: seq<Mail>)
    requires ms != []
    ensures var before, m := ms[..|ms| - 1], ms[|ms| - 1];
            Quiet(last, ms) <==> Quiet(last, before) && !Suspicious(SeenAfter(last, before), m)
  {
    hide SeenAfter, Suspicious;
    var before := ms[..|ms| - 1];
    assert forall i :: 0 <= i < |before| ==> before[..i] == ms[..i];
  }

  lemma LinkedStep(last: Option<Id>, hs: seq<Header>, h: Header)
    ensures Linked(last, hs + [h]) <==>
            Linked(last, hs) && h.previous == if hs == [] then last else Some(hs[|hs| - 1].id)
  {
    var ks := hs + [h];
    forall i | 0 <= i < |hs|
      ensures LinkAt(last, ks, i) <==> LinkAt(last, hs, i)
    {
    }
    assert LinkAt(last, ks, |hs|) <==> h.previous == if hs == [] then last else Some(hs[|hs| - 1].id);
  }

  /** No exception is thrown if and only if the states received, repeats collapsed, follow the enclave's links
      from the state first remembered. */
  lemma {:induction false} QuietIsLinked(last: Option<Id>, ms: seq<Mail>)
    ensures Quiet(last, ms) <==> Linked(last, Collapsed(last, ms))
    decreases |ms|
  {
    if ms != [] {
      var before, m := ms[..|ms| - 1], ms[|ms| - 1];
      QuietIsLinked(last, before);
      QuietStep(last, ms);
      LastOfCollapsed(last, before);
      if m.header.Some? {
        LinkedStep(last, Collapsed(last, before), m.header.value);
      }
      hide Quiet, Linked, SeenAfter;
    }
  }

  // ---- What a host can do ----------------------------------------------------------------------

  /** A state the enclave told this client of. It follows another such state or, if parent is None, the one the client
      first remembers. An enclave restarted from an old state goes on from there: a state can have any number of
      followers. */
  datatype Node = Node(id: Id, parent: Option<nat>)

  /** All states of all the enclave's runs, each after the one it follows; no identifier is used twice. */
  ghost predicate Forest(log: seq<Node>, last: Option<Id>) {
    && (forall i, j :: 0 <= i < j < |log| ==> log[i].id != log[j].id)
    && forall i :: 0 <= i < |log| ==> Some(log[i].id) != last && (log[i].parent.Some? ==> log[i].parent.value < i)
  }

  /** The mail of state k. */
  function MailOf(log: seq<Node>, last: Option<Id>, k: nat): Mail
    requires k < |log|
  {
    var p := log[k].parent;
    Mail(Some(Header(log[k].id, if p.Some? && p.value < |log| then Some(log[p.value].id) else last)), [])
  }

  /** The host delivers mails of these states, in this order. */
  ghost predicate Delivers(log: seq<Node>, last: Option<Id>, ms: seq<Mail>, ks: seq<nat>) {
    |ms| == |ks| && forall i :: 0 <= i < |ks| ==> ks[i] < |log| && ms[i].header == MailOf(log, last, ks[i]).header
  }

  /** Mail i comes from the state of the mail before it or from one that follows it at once. */
  predicate InStep(log: seq<Node>, ks: seq<nat>, i: nat)
    requires i < |ks| && ks[i] < |log|
  {
    if i == 0 then log[ks[0]].parent.None? else ks[i] == ks[i - 1] || log[ks[i]].parent == Some(ks[i - 1])
  }

  lemma SeenFromLog(log: seq<Node>, last: Option<Id>, ms: seq<Mail>, ks: seq<nat>, i: nat)
    requires Delivers(log, last, ms, ks) && i <= |ms|
    ensures SeenAfter(last, ms[..i]) == if i == 0 then last else Some(log[ks[i - 1]].id)
  {
    if i > 0 {
      assert ms[..i][..i - 1] == ms[..i - 1] && ms[..i][i - 1] == ms[i - 1];
    }
  }

  /** The client throws at a mail exactly when, since the mail before, the host has gone back, changed to another branch
      or left a state out; after that it is back in step with what it received. */
  lemma RollbackIsDetected(log: seq<Node>, last: Option<Id>, ms: seq<Mail>, ks: seq<nat>, i: nat)
    requires Forest(log, last) && Delivers(log, last, ms, ks) && i < |ms|
    ensures Suspicious(SeenAfter(last, ms[..i]), ms[i]) <==> !InStep(log, ks, i)
  {
    SeenFromLog(log, last, ms, ks, i);
    assert ms[i].header == MailOf(log, last, ks[i]).header;
  }

  /** State k is state a or goes back to it. */
  predicate Descends(log: seq<Node>, a: nat, k: nat)
    requires k < |log|
    decreases k
  {
    a == k || (log[k].parent.Some? && log[k].parent.value < k && Descends(log, a, log[k].parent.value))
  }

  /** If the client throws at none of the mails after the i-th up to the j-th, the j-th comes from the state of the i-th
      or from one that descends from it: a state the client has seen is not undone unnoticed. */
  lemma {:induction false} QuietDescends(log: seq<Node>, last: Option<Id>, ms: seq<Mail>, ks: seq<nat>, i: nat, j: nat)
    requires Forest(log, last) && Delivers(log, last, ms, ks) && i <= j < |ms|
    requires forall k :: i < k <= j ==> !Suspicious(SeenAfter(last, ms[..k]), ms[k])
    ensures Descends(log, ks[i], ks[j])
    decreases j
  {
    hide Suspicious, SeenAfter;
    if i < j {
      QuietDescends(log, last, ms, ks, i, j - 1);
      RollbackIsDetected(log, last, ms, ks, j);
    }
  }

  // ---- Saving and restoring --------------------------------------------------------------------

  /** The constraint an enclave has to meet. */
  datatype Constraint = Constraint(codeHashes: set<string>, signers: set<string>, productId: Option<nat>,
    minRevocation: Option<nat>, minSecurity: string, maxAge: Option<string>)
  {
    predicate Valid() {
      (codeHashes != {} || signers != {}) && (productId.Some? <==> signers != {})
    }
  }

  /** A word of the constraint language: a key and a value. */
  datatype Token =
    | Code(hash: string)
    | Signer(hash: string)
    | Product(n: nat)
    | Revoke(n: nat)
    | Expire(age: string)
    | Security(level: string)

  const STALE: string := "STALE"

  function Codes(cs: seq<string>): (ts: seq<Token>)
    ensures |ts| == |cs| && forall i :: 0 <= i < |cs| ==> ts[i] == Code(cs[i])
  {
    seq(|cs|, i requires 0 <= i < |cs| => Code(cs[i]))
  }

  function Signers(ss: seq<string>): (ts: seq<Token>)
    ensures |ts| == |ss| && forall i :: 0 <= i < |ss| ==> ts[i] == Signer(ss[i])
  {
    seq(|ss|, i requires 0 <= i < |ss| => Signer(ss[i]))
  }

  function IfSome(o: Option<Token>): seq<Token> {
    if o.Some? then [o.value] else []
  }

  function ProductOf(c: Constraint): Option<Token> {
    if c.productId.Some? then Some(Product(c.productId.value)) else None
  }

  function RevokeOf(c: Constraint): Option<Token> {
    if c.minRevocation.Some? then Some(Revoke(c.minRevocation.value)) else None
  }

  function ExpireOf(c: Constraint): Option<Token> {
    if c.maxAge.Some? then Some(Expire(c.maxAge.value)) else None
  }

  /** The words after the hashes and signers. */
  function Tail(c: Constraint): seq<Token> {
    IfSome(ProductOf(c)) + IfSome(RevokeOf(c)) + IfSome(ExpireOf(c)) + IfSome(Some(Security(c.minSecurity)))
  }

  /** The words of a constraint, its hashes and signers listed in some order. */
  function Printed(c: Constraint, cs: seq<string>, ss: seq<string>): seq<Token> {
    Codes(cs) + Signers(ss) + Tail(c)
  }

  /** xs lists the set. */
  ghost predicate Lists(xs: seq<string>, s: set<string>) {
    s == set x | x in xs
  }

  datatype Key = KProduct | KRevoke | KExpire | KSecurity

  predicate Has(t: Token, k: Key) {
    match k
    case KProduct => t.Product?
    case KRevoke => t.Revoke?
    case KExpire => t.Expire?
    case KSecurity => t.Security?
  }

  /** The words with a key, in order. */
  function Values(ts: seq<Token>, k: Key): (vs: seq<Token>)
    ensures forall i :: 0 <= i < |vs| ==> Has(vs[i], k)
  {
    if ts == [] then [] else (if Has(ts[0], k) then [ts[0]] else []) + Values(ts[1..], k)
  }

  datatype Parsed = BadConstraint | InvalidCriteria | Good(c: Constraint)

  /** The constraint of words none of which stands twice. */
  function ReadAs(ts: seq<Token>): Constraint {
    var ps, rs, es, ls := Values(ts, KProduct), Values(ts, KRevoke), Values(ts, KExpire), Values(ts, KSecurity);
    Constraint(set t | t in ts && t.Code? :: t.hash, set t | t in ts && t.Signer? :: t.hash,
               if ps == [] then None else Some(ps[0].n), if rs == [] then None else Some(rs[0].n),
               if ls == [] then STALE else ls[0].level, if es == [] then None else Some(es[0].age))
  }

  /** Read a constraint: hashes and signers collected, every other key at most once, and the criteria valid together. */
  function Parse(ts: seq<Token>): Parsed {
    var ps, rs, es, ls := Values(ts, KProduct), Values(ts, KRevoke), Values(ts, KExpire), Values(ts, KSecurity);
    if |ps| > 1 || |rs| > 1 || |es| > 1 || |ls| > 1 then BadConstraint
    else
      var c := ReadAs(ts);
      if c.Valid() then Good(c) else InvalidCriteria
  }

  /** Some key that may stand once stands twice. */
  ghost predicate Twice(ts: seq<Token>, k: Key) {
    exists i, j :: 0 <= i < j < |ts| && Has(ts[i], k) && Has(ts[j], k)
  }

  /** c is what the words say, whatever their order; a client that is told no level takes stale machines. */
  ghost predicate Says(ts: seq<Token>, c: Constraint) {
    && (forall h :: h in c.codeHashes <==> Code(h) in ts)
    && (forall h :: h in c.signers <==> Signer(h) in ts)
    && (forall n: nat :: c.productId == Some(n) <==> Product(n) in ts)
    && (forall n: nat :: c.minRevocation == Some(n) <==> Revoke(n) in ts)
    && (forall a :: c.maxAge == Some(a) <==> Expire(a) in ts)
    && (forall l :: Security(l) in ts ==> c.minSecurity == l)
    && ((forall l :: Security(l) !in ts) ==> c.minSecurity == "STALE")
  }

  ghost predicate HasCode(ts: seq<Token>) {
    exists h :: Code(h) in ts
  }

  ghost predicate HasSigner(ts: seq<Token>) {
    exists h :: Signer(h) in ts
  }

  ghost predicate HasProduct(ts: seq<Token>) {
    exists n: nat :: Product(n) in ts
  }

  /** Criteria are valid if there is a signer with a product, or else a hash and no product. */
  lemma SaidValid(ts: seq<Token>, c: Constraint)
    requires Says(ts, c)
    ensures c.Valid() <==> if HasSigner(ts) then HasProduct(ts) else HasCode(ts) && !HasProduct(ts)
  {
    assert c.signers != {} <==> HasSigner(ts) by {
      assert forall h :: h in c.signers <==> Signer(h) in ts;
      if c.signers != {} {
        var h :| h in c.signers;
        assert Signer(h) in ts;
      }
    }
    assert c.codeHashes != {} <==> HasCode(ts) by {
      assert forall h :: h in c.codeHashes <==> Code(h) in ts;
      if c.codeHashes != {} {
        var h :| h in c.codeHashes;
        assert Code(h) in ts;
      }
    }
    assert c.productId.Some? <==> HasProduct(ts) by {
      if c.productId.Some? {
        assert Product(c.productId.value) in ts;
      }
    }
    hide Says, HasSigner, HasCode, HasProduct;
  }

  lemma {:induction false} ValuesAre(ts: seq<Token>, k: Key)
    ensures forall t :: t in Values(ts, k) <==> t in ts && Has(t, k)
    decreases |ts|
  {
    if ts != [] {
      ValuesAre(ts[1..], k);
      assert ts == [ts[0]] + ts[1..];
    }
  }

  lemma {:induction false} ValuesTwice(ts: seq<Token>, k: Key)
    ensures |Values(ts, k)| > 1 <==> Twice(ts, k)
    decreases |ts|
  {
    if ts != [] {
      var r := ts[1..];
      ValuesTwice(r, k);
      TwiceMore(ts, k);
      ValuesAre(r, k);
      hide Twice;
      assert Values(r, k) == [] || Values(r, k)[0] in r;
      assert forall t :: t in r && Has(t, k) ==> t in Values(r, k);
    }
  }

  lemma TwiceMore(ts: seq<Token>, k: Key)
    requires ts != []
    ensures Twice(ts, k) <==> Twice(ts[1..], k) || (Has(ts[0], k) && exists t :: t in ts[1..] && Has(t, k))
  {
    var r := ts[1..];
    if Twice(r, k) {
      var i, j :| 0 <= i < j < |r| && Has(r[i], k) && Has(r[j], k);
      assert Has(ts[i + 1], k) && Has(ts[j + 1], k);
    }
    if Has(ts[0], k) && exists t :: t in r && Has(t, k) {
      var t :| t in r && Has(t, k);
      var j :| 0 <= j < |r| && r[j] == t;
      assert Has(ts[0], k) && Has(ts[j + 1], k);
    }
    if Twice(ts, k) {
      var i, j :| 0 <= i < j < |ts| && Has(ts[i], k) && Has(ts[j], k);
      assert r[j - 1] == ts[j];
      if i > 0 {
        assert Has(r[i - 1], k) && Has(r[j - 1], k);
      }
    }
  }

  lemma OneValue(ts: seq<Token>, k: Key) returns (v: Option<Token>)
    requires !Twice(ts, k)
    ensures Values(ts, k) == IfSome(v)
    ensures forall t :: t in ts && Has(t, k) <==> v == Some(t)
  {
    ValuesAre(ts, k);
    ValuesTwice(ts, k);
    v := if Values(ts, k) == [] then None else Some(Values(ts, k)[0]);
    hide Values, Twice;
    forall t | t in ts && Has(t, k)
      ensures v == Some(t)
    {
      assert t in Values(ts, k);
    }
  }

  /** Words are refused exactly if a key that may stand once stands twice; otherwise they are read as what they say, but
      for those that name no enclave, or a signer without a product or a product without a signer. */
  lemma ParseMeans(ts: seq<Token>)
    ensures Parse(ts) == BadConstraint <==> exists k :: Twice(ts, k)
    ensures Parse(ts) != BadConstraint ==>
              exists c :: Says(ts, c) && Parse(ts) == if c.Valid() then Good(c) else InvalidCriteria
    ensures Parse(ts) == InvalidCriteria <==>
              && (forall k :: !Twice(ts, k))
              && !if HasSigner(ts) then HasProduct(ts) else HasCode(ts) && !HasProduct(ts)
  {
    forall k: Key
      ensures |Values(ts, k)| > 1 <==> Twice(ts, k)
    {
      ValuesTwice(ts, k);
    }
    hide Values, Twice, Says, ReadAs;
    if k :| Twice(ts, k) {
      assert Parse(ts) == BadConstraint by {
        assert k == KProduct || k == KRevoke || k == KExpire || k == KSecurity;
      }
    } else {
      assert !Twice(ts, KProduct) && !Twice(ts, KRevoke) && !Twice(ts, KExpire) && !Twice(ts, KSecurity);
      ReadSays(ts);
      SaidValid(ts, ReadAs(ts));
    }
    hide HasSigner, HasCode, HasProduct;
  }

  lemma ReadSays(ts: seq<Token>)
    requires forall k :: !Twice(ts, k)
    ensures Says(ts, ReadAs(ts))
  {
    SaysNumbers(ts);
    SaysWords(ts);
    hide Values, Twice;
    var c := ReadAs(ts);
    assert forall h :: h in c.codeHashes <==> Code(h) in ts;
    assert forall h :: h in c.signers <==> Signer(h) in ts;
    hide ReadAs;
  }

  lemma SaysNumbers(ts: seq<Token>)
    requires !Twice(ts, KProduct) && !Twice(ts, KRevoke)
    ensures forall n: nat :: ReadAs(ts).productId == Some(n) <==> Product(n) in ts
    ensures forall n: nat :: ReadAs(ts).minRevocation == Some(n) <==> Revoke(n) in ts
  {
    var p := OneValue(ts, KProduct);
    var r := OneValue(ts, KRevoke);
    hide Values, Twice;
  }

  lemma SaysWords(ts: seq<Token>)
    requires !Twice(ts, KExpire) && !Twice(ts, KSecurity)
    ensures forall a :: ReadAs(ts).maxAge == Some(a) <==> Expire(a) in ts
    ensures forall l :: Security(l) in ts ==> ReadAs(ts).minSecurity == l
    ensures (forall l :: Security(l) !in ts) ==> ReadAs(ts).minSecurity == "STALE"
  {
    var e := OneValue(ts, KExpire);
    var s := OneValue(ts, KSecurity);
    hide Values, Twice;
    assert s.Some? ==> s.value == Security(s.value.level);
  }

  lemma {:induction false} ValuesOfJoin(a: seq<Token>, b: seq<Token>, k: Key)
    ensures Values(a + b, k) == Values(a, k) + Values(b, k)
    decreases |a|
  {
    if a == [] {
      assert a + b == b;
    } else {
      ValuesOfJoin(a[1..], b, k);
      assert (a + b)[1..] == a[1..] + b;
    }
  }

  lemma {:induction false} NoValues(ts: seq<Token>, k: Key)
    requires forall i :: 0 <= i < |ts| ==> !Has(ts[i], k)
    ensures Values(ts, k) == []
    decreases |ts|
  {
    if ts != [] {
      NoValues(ts[1..], k);
    }
  }

  lemma ValuesIfSome(o: Option<Token>, k: Key)
    ensures Values(IfSome(o), k) == if o.Some? && Has(o.value, k) then [o.value] else []
  {
    if o.Some? {
      assert [o.value][1..] == [];
    }
  }

  lemma TailValues(c: Constraint, k: Key)
    ensures Values(Tail(c), k) ==
            match k
            case KProduct => IfSome(ProductOf(c))
            case KRevoke => IfSome(RevokeOf(c))
            case KExpire => IfSome(ExpireOf(c))
            case KSecurity => [Security(c.minSecurity)]
  {
    var p, r, e := IfSome(ProductOf(c)), IfSome(RevokeOf(c)), IfSome(ExpireOf(c));
    var l := IfSome(Some(Security(c.minSecurity)));
    ValuesOfJoin(p + r + e, l, k);
    ValuesOfJoin(p + r, e, k);
    ValuesOfJoin(p, r, k);
    ValuesIfSome(ProductOf(c), k);
    ValuesIfSome(RevokeOf(c), k);
    ValuesIfSome(ExpireOf(c), k);
    ValuesIfSome(Some(Security(c.minSecurity)), k);
    hide Values;
  }

  /** A printed constraint is read back as the same constraint if and only if its criteria are valid. */
  lemma ConstraintRoundTrip(c: Constraint, cs: seq<string>, ss: seq<string>)
    requires Lists(cs, c.codeHashes) && Lists(ss, c.signers)
    ensures Parse(Printed(c, cs, ss)) == if c.Valid() then Good(c) else InvalidCriteria
  {
    var ts := Printed(c, cs, ss);
    PrintedValues(c, cs, ss, KProduct);
    PrintedValues(c, cs, ss, KRevoke);
    PrintedValues(c, cs, ss, KExpire);
    PrintedValues(c, cs, ss, KSecurity);
    HashesBack(ts, Codes(cs), Signers(ss), c, cs, ss);
    hide Values, Printed, Tail;
  }

  lemma PrintedValues(c: Constraint, cs: seq<string>, ss: seq<string>, k: Key)
    ensures Values(Printed(c, cs, ss), k) ==
            match k
            case KProduct => IfSome(ProductOf(c))
            case KRevoke => IfSome(RevokeOf(c))
            case KExpire => IfSome(ExpireOf(c))
            case KSecurity => [Security(c.minSecurity)]
  {
    hide Tail, IfSome;
    ValuesOfJoin(Codes(cs) + Signers(ss), Tail(c), k);
    NoValues(Codes(cs) + Signers(ss), k);
    TailValues(c, k);
  }

  lemma HashesBack(ts: seq<Token>, a: seq<Token>, b: seq<Token>, c: Constraint, cs: seq<string>, ss: seq<string>)
    requires Lists(cs, c.codeHashes) && Lists(ss, c.signers) && ts == a + b + Tail(c)
    requires |a| == |cs| && forall i :: 0 <= i < |cs| ==> a[i] == Code(cs[i])
    requires |b| == |ss| && forall i :: 0 <= i < |ss| ==> b[i] == Signer(ss[i])
    ensures (set t | t in ts && t.Code? :: t.hash) == c.codeHashes
            && (set t | t in ts && t.Signer? :: t.hash) == c.signers
  {
    assert forall t :: t in Tail(c) ==> !t.Code? && !t.Signer?;
    hide Tail;
    forall x | x in cs
      ensures Code(x) in a
    {
      var i :| 0 <= i < |cs| && cs[i] == x;
      assert a[i] in a;
    }
    forall x | x in ss
      ensures Signer(x) in b
    {
      var i :| 0 <= i < |ss| && ss[i] == x;
      assert b[i] in b;
    }
    assert forall t :: t in ts <==> t in a || t in b || t in Tail(c);
  }

  // ---- A saved client --------------------------------------------------------------------------

  /** What a client keeps: its keys as numbers, its constraint, the state last seen, and the next sequence number of
      each topic it has written to. */
  datatype Memory = Memory(privateKey: nat, constraint: Constraint, enclaveKey: Option<nat>, lastSeen: Option<Id>,
    next: map<string, nat>)

  /** The saved form: the constraint printed, the sequence numbers listed. */
  datatype Saved = Saved(version: nat, privateKey: nat, words: seq<Token>, enclaveKey: Option<nat>,
    lastSeen: Option<Id>, next: seq<(string, nat)>)

  /** Saving lists the topics, the hashes and the signers in some order. */
  ghost predicate Saves(m: Memory, s: Saved) {
    && s.version == 1 && s.privateKey == m.privateKey && s.enclaveKey == m.enclaveKey && s.lastSeen == m.lastSeen
    && (exists cs, ss ::
      Lists(cs, m.constraint.codeHashes) && Lists(ss, m.constraint.signers) && s.words == Printed(m.constraint, cs, ss))
    && ListsMap(s.next, m.next)
  }

  ghost predicate ListsMap(xs: seq<(string, nat)>, m: map<string, nat>) {
    && (forall i :: 0 <= i < |xs| ==> xs[i].0 in m && m[xs[i].0] == xs[i].1)
    && forall t :: t in m ==> exists i :: 0 <= i < |xs| && xs[i].0 == t
  }

  datatype Restored = Fails | Restores(m: Memory)

  /** Read the topics back one after the other. */
  function ToMap(xs: seq<(string, nat)>): map<string, nat> {
    if xs == [] then map[] else ToMap(xs[..|xs| - 1])[xs[|xs| - 1].0 := xs[|xs| - 1].1]
  }

  function Restore(s: Saved): Restored {
    if s.version != 1 then Fails
    else match Parse(s.words)
      case Good(c) => Restores(Memory(s.privateKey, c, s.enclaveKey, s.lastSeen, ToMap(s.next)))
      case _ => Fails
  }

  lemma {:induction false} ToMapLists(xs: seq<(string, nat)>, m: map<string, nat>)
    requires forall i :: 0 <= i < |xs| ==> xs[i].0 in m && m[xs[i].0] == xs[i].1
    ensures forall t :: t in ToMap(xs) <==> exists i :: 0 <= i < |xs| && xs[i].0 == t
    ensures forall t :: t in ToMap(xs) ==> t in m && ToMap(xs)[t] == m[t]
    decreases |xs|
  {
    if xs != [] {
      var r := xs[..|xs| - 1];
      ToMapLists(r, m);
      forall t | exists i :: 0 <= i < |xs| && xs[i].0 == t
        ensures t in ToMap(xs)
      {
        var i :| 0 <= i < |xs| && xs[i].0 == t;
        if i < |r| {
          assert r[i].0 == t;
        }
      }
      forall t | t in ToMap(xs)
        ensures exists i :: 0 <= i < |xs| && xs[i].0 == t
      {
        if t != xs[|xs| - 1].0 {
          var i :| 0 <= i < |r| && r[i].0 == t;
          assert xs[i].0 == t;
        }
      }
    }
  }

  /** A saved client can be restored if and only if its constraint is valid, and then nothing is lost: in particular
      it goes on detecting rollbacks from the same state. */
  lemma SaveThenRestore(m: Memory, s: Saved)
    requires Saves(m, s)
    ensures Restore(s) == if m.constraint.Valid() then Restores(m) else Fails
  {
    hide Parse, Printed;
    var cs, ss :| Lists(cs, m.constraint.codeHashes) && Lists(ss, m.constraint.signers)
        && s.words == Printed(m.constraint, cs, ss);
    ConstraintRoundTrip(m.constraint, cs, ss);
    ToMapLists(s.next, m.next);
    assert ToMap(s.next) == m.next;
  }

  /** A client without a constraint on code or signers: saved, and lost. */
  lemma EmptyConstraint(key: nat) returns (m: Memory, s: Saved)
    ensures Saves(m, s) && Restore(s) == Fails
    ensures m.privateKey == key && m.constraint.codeHashes == {} && m.constraint.signers == {}
  {
    var c := Constraint({}, {}, None, None, STALE, None);
    m := Memory(key, c, None, None, map[]);
    s := Saved(1, key, Printed(c, [], []), None, None, []);
    assert Lists([], c.codeHashes) && Lists([], c.signers);
    SaveThenRestore(m, s);
  }

  lemma {:induction false} SeenAcross(last: Option<Id>, a: seq<Mail>, b: seq<Mail>)
    ensures SeenAfter(last, a + b) == SeenAfter(SeenAfter(last, a), b)
    decreases |b|
  {
    if b == [] {
      assert a + b == a;
    } else {
      SeenAcross(last, a, b[..|b| - 1]);
      assert (a + b)[..|a + b| - 1] == a + b[..|b| - 1];
    }
  }

  /** Nothing in two histories is suspicious if nothing in either is. */
  lemma QuietJoin(last: Option<Id>, a: seq<Mail>, b: seq<Mail>)
    ensures Quiet(last, a + b) <==> Quiet(last, a) && Quiet(SeenAfter(last, a), b)
  {
    hide Suspicious, SeenAfter;
    var all := a + b;
    forall i | 0 <= i < |all|
      ensures i < |a| ==> all[..i] == a[..i] && all[i] == a[i]
      ensures i >= |a| ==>
              SeenAfter(last, all[..i]) == SeenAfter(SeenAfter(last, a), b[..i - |a|]) && all[i] == b[i - |a|]
    {
      if i >= |a| {
        assert all[..i] == a + b[..i - |a|];
        SeenAcross(last, a, b[..i - |a|]);
      }
    }
    if Quiet(last, all) {
      forall j | 0 <= j < |b|
        ensures !Suspicious(SeenAfter(SeenAfter(last, a), b[..j]), b[j])
      {
        assert !Suspicious(SeenAfter(last, all[..|a| + j]), all[|a| + j]);
      }
      forall j | 0 <= j < |a|
        ensures !Suspicious(SeenAfter(last, a[..j]), a[j])
      {
        assert !Suspicious(SeenAfter(last, all[..j]), all[j]);
      }
    }
  }

  /** Saved after the mails a and restored, a client takes the mails b as if it had never stopped. */
  lemma QuietAcrossRestore(m: Memory, a: seq<Mail>, b: seq<Mail>, s: Saved)
    requires Saves(m.(lastSeen := SeenAfter(m.lastSeen, a)), s) && m.constraint.Valid()
    ensures Restore(s).Restores?
    ensures Quiet(m.lastSeen, a + b) <==> Quiet(m.lastSeen, a) && Quiet(Restore(s).m.lastSeen, b)
  {
    SaveThenRestore(m.(lastSeen := SeenAfter(m.lastSeen, a)), s);
    QuietJoin(m.lastSeen, a, b);
  }
}
