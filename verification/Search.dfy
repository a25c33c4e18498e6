/** What a search finds in any directory, well-formed or not, told without the scan. */
module Searches {
  import opened LongNames
  import opened Directories

  /** The entries from k up to i are a long name's, from its mark on. */
  ghost predicate Begins(q: Query, es: seq<Entry>, k: nat, i: nat) {
    && k < i <= |es| && !q.noLong && Starts(es[k])
    && forall j :: k <= j < i ==> IsLong(es[j]) && (j > k ==> !Starts(es[j]))
  }

  /** And they are parts of the name asked for, in order, none missing, with one checksum. */
  ghost predicate Agrees(q: Query, es: seq<Entry>, k: nat, i: nat) {
    && Begins(q, es, k, i)
    && forall j :: k <= j < i ==>
      && PartMatches(q, es[j]) && Order(es[j]) + (j - k) == Order(es[k]) && es[j][LDIR_CHKSUM] == es[k][LDIR_CHKSUM]
  }

  /** They are all its parts and belong to the short name of entry x. */
  ghost predicate AgreesWhole(q: Query, es: seq<Entry>, k: nat, x: nat) {
    x < |es| && Agrees(q, es, k, x) && Order(es[k]) == x - k && es[k][LDIR_CHKSUM] == SumOf(es[x][..11])
  }

  /** The entry of a file or directory that has the name: its long name, or its short one if that may be compared. */
  ghost predicate HasName(q: Query, es: seq<Entry>, x: nat) {
    && x < |es| && !Free(es[x]) && !IsVolume(es[x]) && !IsLong(es[x])
    && ((exists k: nat :: AgreesWhole(q, es, k, x)) || (!q.loss && es[x][..11] == q.fn))
  }

  ghost predicate NoneBefore(q: Query, es: seq<Entry>, n: nat) {
    n <= |es| && forall j :: 0 <= j < n ==> es[j][0] != 0 && !HasName(q, es, j)
  }

  /** Where the long name before entry i begins, if one does. */
  ghost predicate BlockIs(q: Query, es: seq<Entry>, i: nat, blk: int) {
    if blk == NO_BLOCK then forall k: nat :: !Begins(q, es, k, i) else blk >= 0 && Begins(q, es, blk, i)
  }

  /** The finding is the first entry before the end mark that has the name, and where its long name begins. */
  ghost predicate IsFirst(q: Query, es: seq<Entry>, f: Finding) {
    match f
    case NotThere => exists n: nat :: NoneBefore(q, es, n) && (n == |es| || es[n][0] == 0)
    case Found(x, blk) => x >= 0 && HasName(q, es, x) && NoneBefore(q, es, x) && BlockIs(q, es, x, blk)
  }

  /** What the scan remembers before entry i. */
  ghost predicate Scanned(q: Query, es: seq<Entry>, i: nat, s: Scan) {
    && BlockIs(q, es, i, s.blk)
    && (s.ord != NO_ORDER ==> exists k: nat :: Agrees(q, es, k, i))
    && forall k: nat :: Agrees(q, es, k, i) ==> s.ord == Order(es[k]) - (i - k) && s.sum == es[k][LDIR_CHKSUM]
  }

  lemma PartOrdered(q: Query, e: Entry)
    ensures Order(e) < NO_ORDER && (PartMatches(q, e) ==> Order(e) >= 1)
  {
  }

  lemma BeginsMore(q: Query, es: seq<Entry>, k: nat, i: nat)
    requires i < |es| && IsLong(es[i]) && !q.noLong
    ensures Begins(q, es, k, i + 1) <==> if k == i then Starts(es[i]) else Begins(q, es, k, i) && !Starts(es[i])
  {
  }

  lemma NoneBegins(q: Query, es: seq<Entry>, n: nat)
    requires 0 < n <= |es| && (q.noLong || !IsLong(es[n - 1]))
    ensures forall k: nat :: !Begins(q, es, k, n)
  {
  }

  lemma AgreesMore(q: Query, es: seq<Entry>, k: nat, i: nat)
    requires i < |es| && IsLong(es[i]) && !q.noLong
    ensures Agrees(q, es, k, i + 1) <==>
              && PartMatches(q, es[i])
              && if k == i then Starts(es[i])
                 else
                   && Agrees(q, es, k, i) && !Starts(es[i]) && Order(es[i]) + (i - k) == Order(es[k])
                   && es[i][LDIR_CHKSUM] == es[k][LDIR_CHKSUM]
  {
    BeginsMore(q, es, k, i);
    hide Begins, PartMatches, Order, Starts, IsLong;
    if k < i && Agrees(q, es, k, i + 1) {
      assert Agrees(q, es, k, i);
    }
  }

  lemma AgreesInside(q: Query, es: seq<Entry>, k: nat, i: nat)
    requires Agrees(q, es, k, i)
    ensures k < i <= |es|
  {
  }

  lemma BlockMore(q: Query, es: seq<Entry>, i: nat, blk: int)
    requires i < |es| && IsLong(es[i]) && !q.noLong && BlockIs(q, es, i, blk)
    ensures BlockIs(q, es, i + 1, if Starts(es[i]) then i else blk)
  {
    if Starts(es[i]) {
      BeginsMore(q, es, i, i);
    } else if blk == NO_BLOCK {
      var n := i + 1;
      forall k: nat
        ensures !Begins(q, es, k, n)
      {
        BeginsMore(q, es, k, i);
      }
    } else {
      assert blk < i;
      BeginsMore(q, es, blk, i);
    }
  }

  lemma PartNext(q: Query, es: seq<Entry>, i: nat, s: Scan, t: Scan)
    requires Scanned(q, es, i, s) && i < |es| && IsLong(es[i]) && !q.noLong
    requires t.blk == (if Starts(es[i]) then i else s.blk)
             && t.sum == if Starts(es[i]) then es[i][LDIR_CHKSUM] else s.sum
    requires var was := if Starts(es[i]) then Order(es[i]) else s.ord;
             t.ord == if Order(es[i]) == was && t.sum == es[i][LDIR_CHKSUM] && PartMatches(q, es[i]) then was - 1
                      else NO_ORDER
    ensures Scanned(q, es, i + 1, t)
  {
    PartOrdered(q, es[i]);
    BlockMore(q, es, i, s.blk);
    hide PartMatches, Order, Starts, BlockIs, IsLong;
    forall k: nat | Agrees(q, es, k, i + 1)
      ensures t.ord == Order(es[k]) - (i + 1 - k) && t.sum == es[k][LDIR_CHKSUM]
    {
      AgreesMore(q, es, k, i);
      AgreesInside(q, es, k, i + 1);
      hide Agrees;
    }
    if t.ord != NO_ORDER {
      if Starts(es[i]) {
        AgreesMore(q, es, i, i);
      } else {
        var k: nat :| Agrees(q, es, k, i);
        AgreesInside(q, es, k, i);
        AgreesMore(q, es, k, i);
      }
      hide Agrees;
    }
  }

  lemma LookAtPart(q: Query, e: Entry, i: nat, s: Scan)
    requires IsLong(e) && !q.noLong
    ensures Look(q, s, e, i).GoOn?
    ensures var t := Look(q, s, e, i).s;
            var was := if Starts(e) then Order(e) else s.ord;
            && t.blk == (if Starts(e) then i else s.blk) && t.sum == (if Starts(e) then e[LDIR_CHKSUM] else s.sum)
            && t.ord == if Order(e) == was && t.sum == e[LDIR_CHKSUM] && PartMatches(q, e) then was - 1 else NO_ORDER
  {
    PartOrdered(q, e);
    hide PartMatches, SumOf, Order, Starts;
  }

  /** One part more. */
  lemma PartScanned(q: Query, es: seq<Entry>, i: nat, s: Scan)
    requires Scanned(q, es, i, s) && i < |es| && IsLong(es[i]) && !q.noLong
    ensures Look(q, s, es[i], i).GoOn? && Scanned(q, es, i + 1, Look(q, s, es[i], i).s)
  {
    LookAtPart(q, es[i], i, s);
    PartNext(q, es, i, s, Look(q, s, es[i], i).s);
  }

  /** An entry of another kind. */
  lemma EntryScanned(q: Query, es: seq<Entry>, i: nat, s: Scan)
    requires Scanned(q, es, i, s) && i < |es| && (IsLong(es[i]) ==> q.noLong)
    ensures match Look(q, s, es[i], i)
            case Ended => es[i][0] == 0
            case Matched(b) => HasName(q, es, i) && b == s.blk
            case GoOn(t) => es[i][0] != 0 && !HasName(q, es, i) && Scanned(q, es, i + 1, t)
  {
    hide PartMatches, SumOf, Order, Starts;
    NoneBegins(q, es, i + 1);
    if !Free(es[i]) && !IsVolume(es[i]) && !IsLong(es[i]) && s.ord == 0 && s.sum == SumOf(es[i][..11]) {
      var k: nat :| Agrees(q, es, k, i);
      assert AgreesWhole(q, es, k, i);
    }
  }

  lemma {:induction false} SearchIsFirst(q: Query, es: seq<Entry>, i: nat, s: Scan)
    requires i <= |es| && Scanned(q, es, i, s) && NoneBefore(q, es, i)
    ensures IsFirst(q, es, Search(q, es, i, s))
    decreases |es| - i
  {
    hide Look, Scanned, HasName;
    if i < |es| {
      if IsLong(es[i]) && !q.noLong {
        PartScanned(q, es, i, s);
        LongHasNone(q, es, i);
      } else {
        EntryScanned(q, es, i, s);
      }
      match Look(q, s, es[i], i)
      case Ended =>
      case Matched(_) => ScannedBlock(q, es, i, s);
      case GoOn(t) => SearchIsFirst(q, es, i + 1, t);
    }
  }

  lemma LongHasNone(q: Query, es: seq<Entry>, i: nat)
    requires i < |es| && IsLong(es[i])
    ensures es[i][0] != 0 && !HasName(q, es, i)
  {
  }

  lemma ScannedBlock(q: Query, es: seq<Entry>, i: nat, s: Scan)
    requires Scanned(q, es, i, s)
    ensures BlockIs(q, es, i, s.blk)
  {
  }

  /** A search finds the first entry of the directory that has the name, and nothing if there is none. */
  lemma FindIsFirst(q: Query, es: seq<Entry>)
    ensures IsFirst(q, es, Find(q, es))
  {
    assert Scanned(q, es, 0, SCAN_START);
    SearchIsFirst(q, es, 0, SCAN_START);
  }

  /** There is only one such finding. */
  lemma OneFirst(q: Query, es: seq<Entry>, f: Finding, g: Finding)
    requires IsFirst(q, es, f) && IsFirst(q, es, g)
    ensures f == g
  {
    hide HasName, Begins;
    if f.Found? && g.Found? {
      var x := f.at;
      if f.blk != NO_BLOCK && g.blk != NO_BLOCK {
        OneBegin(q, es, f.blk, g.blk, x);
      }
    } else if f.Found? || g.Found? {
      HasNameHere(q, es, if f.Found? then f.at else g.at);
    }
  }

  lemma HasNameHere(q: Query, es: seq<Entry>, x: nat)
    requires HasName(q, es, x)
    ensures x < |es| && es[x][0] != 0
  {
  }

  lemma OneBegin(q: Query, es: seq<Entry>, k: nat, l: nat, i: nat)
    requires Begins(q, es, k, i) && Begins(q, es, l, i)
    ensures k == l
  {
  }
}
