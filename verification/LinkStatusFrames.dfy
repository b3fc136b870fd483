/**
 What a peer can read from the link status a node broadcasts.
 */
module LinkStatusFrames {
  import opened Bytes
  import opened NwkFrame
  import opened NwkModel
  import opened NwkProperties
  import opened NwkFrames

  /** The n entries of three octets each from offset on. */
  function ReadEntries(p: seq<byte>, from: nat, n: nat): (es: seq<(word, byte)>)
    requires from + 3 * n <= |p|
    ensures |es| == n
  {
    if n == 0 then []
    else
      var at := from + 3 * (n - 1);
      ReadEntries(p, from, n - 1) + [(Word(p[at], p[at + 1]), p[at + 2])]
  }

  /** The length checks of handleLinkStatusFrame, and the entries it has then been assured of. */
  function ReadLinkStatus(p: seq<byte>): Option<seq<(word, byte)>> {
    if |p| < 2 then None
    else
      var count: nat := p[1];
      if |p| < 2 + count * 3 then None else Some(ReadEntries(p, 2, count))
  }

  function LinkStatusHead(st: State): (bs: seq<byte>)
    ensures |bs| == 2
  {
    [CMD_LINK_STATUS, Truncate(|st.neighbors|)]
  }

  /** The payload of the link status for the neighbours in this order. */
  function LinkStatusPayload(st: State, order: seq<word>): seq<byte>
    requires forall k :: k in order ==> k in st.neighbors
  {
    LinkStatusHead(st) + LinkQualities(order, st.neighbors)
  }

  function Entries(order: seq<word>, neighbors: map<word, Neighbor>): (es: seq<(word, byte)>)
    requires forall k :: k in order ==> k in neighbors
    ensures |es| == |order|
    ensures forall i :: 0 <= i < |order| ==> es[i] == (order[i], neighbors[order[i]].linkQuality)
  {
    seq(|order|, i requires 0 <= i < |order| => (order[i], neighbors[order[i]].linkQuality))
  }

  lemma {:induction false} QualitiesLength(order: seq<word>, neighbors: map<word, Neighbor>)
    requires forall k :: k in order ==> k in neighbors
    ensures |LinkQualities(order, neighbors)| == 3 * |order|
  {
    if order != [] {
      QualitiesLength(order[..|order| - 1], neighbors);
    }
  }

  lemma WordBack(w: word) ensures Word(Lo(w), Hi(w)) == w {}

  lemma {:induction false} QualityAt(order: seq<word>, neighbors: map<word, Neighbor>, i: nat)
    requires i < |order| && forall k :: k in order ==> k in neighbors
    ensures var q := LinkQualities(order, neighbors);
            && |q| == 3 * |order|
            && Word(q[3 * i], q[3 * i + 1]) == order[i] && q[3 * i + 2] == neighbors[order[i]].linkQuality
  {
    hide Word, Lo, Hi;
    var k := |order| - 1;
    QualitiesLength(order, neighbors);
    QualitiesLength(order[..k], neighbors);
    if i < k {
      QualityAt(order[..k], neighbors, i);
    } else {
      WordBack(order[k]);
    }
  }

  lemma {:induction false} EntriesRead(st: State, order: seq<word>, n: nat)
    requires n <= |order| && forall k :: k in order ==> k in st.neighbors
    ensures |LinkStatusPayload(st, order)| == 2 + 3 * |order|
    ensures ReadEntries(LinkStatusPayload(st, order), 2, n) == Entries(order, st.neighbors)[..n]
    decreases n
  {
    hide LinkQualities, LinkStatusHead, Word;
    QualitiesLength(order, st.neighbors);
    if n > 0 {
      EntriesRead(st, order, n - 1);
      QualityAt(order, st.neighbors, n - 1);
      var q := LinkQualities(order, st.neighbors);
      var p := LinkStatusPayload(st, order);
      assert p[3 * n - 1] == q[3 * n - 3] && p[3 * n] == q[3 * n - 2] && p[3 * n + 1] == q[3 * n - 1];
    }
  }

  lemma {:induction false} EnumerationSize(order: seq<word>, keys: set<word>)
    requires Enumerates(order, keys)
    ensures |order| == |keys|
    decreases |order|
  {
    if order == [] {
      assert keys == {};
    } else {
      var k := |order| - 1;
      var rest := keys - {order[k]};
      assert forall x :: x in order[..k] <==> x in rest;
      EnumerationSize(order[..k], rest);
    }
  }

  /** The entries are every neighbour with its quality, and nothing else. */
  ghost predicate Reports(es: seq<(word, byte)>, neighbors: map<word, Neighbor>) {
    forall k: word, q: byte :: (k, q) in es <==> k in neighbors && neighbors[k].linkQuality == q
  }

  lemma AllReported(order: seq<word>, neighbors: map<word, Neighbor>)
    requires Enumerates(order, neighbors.Keys)
    ensures Reports(Entries(order, neighbors), neighbors)
  {
    var es := Entries(order, neighbors);
    forall k: word, q: byte ensures (k, q) in es <==> k in neighbors && neighbors[k].linkQuality == q {
      if k in neighbors {
        assert k in order;
        var i :| 0 <= i < |order| && order[i] == k;
        assert es[i] == (k, neighbors[k].linkQuality);
      }
    }
  }

  lemma SomeMissing(order: seq<word>, neighbors: map<word, Neighbor>, n: nat)
    requires Enumerates(order, neighbors.Keys) && n < |order|
    ensures !Reports(Entries(order, neighbors)[..n], neighbors)
  {
    var es := Entries(order, neighbors);
    assert es[n] !in es[..n];
    assert order[n] in neighbors;
  }

  /** The link status of a joined node reads at any peer as this payload, broadcast within two hops. */
  lemma LinkStatusReads(st: State, order: seq<word>)
    requires Inv(st) && st.running && st.own != 0xFFFF && Enumerates(order, st.neighbors.Keys)
    ensures var frames := LinkStatus(st, order).frames;
            && |frames| == 1
            && ReadsAs(frames[0], Header(false, false, st.seqNum, 0xFFFF, st.own, 2), [], LinkStatusPayload(st, order))
            && LinkStatusPayload(st, order)[0] == 0x06
  {
    hide ReadsAs, LinkQualities, Inv, Build;
    TransmitSurvives(st, LinkStatusPayload(st, order), BROADCAST, 2);
  }

  /** A node that is not running, or has no address, sends none. */
  lemma NoLinkStatus(st: State, order: seq<word>)
    requires (!st.running || st.own == 0xFFFF) && Enumerates(order, st.neighbors.Keys)
    ensures LinkStatus(st, order).state == st && LinkStatus(st, order).frames == []
  {
    hide LinkQualities;
  }

  /**
   The length checks of the peer pass, and it reads the first entries, as many as the truncated
   count says. Those are all the neighbours exactly if there are at most 255.
   */
  lemma LinkStatusReadIff(st: State, order: seq<word>)
    requires Enumerates(order, st.neighbors.Keys)
    ensures |order| == |st.neighbors|
    ensures ReadLinkStatus(LinkStatusPayload(st, order)) ==
            Some(Entries(order, st.neighbors)[..|order| % 0x100])
    ensures Reports(Entries(order, st.neighbors)[..|order| % 0x100], st.neighbors) <==> |st.neighbors| <= 255
  {
    hide LinkQualities, Reports, ReadEntries, Enumerates;
    EnumerationIs(order, st.neighbors.Keys);
    EnumerationSize(order, st.neighbors.Keys);
    var n := |st.neighbors|;
    assert |st.neighbors.Keys| == n;
    EntriesRead(st, order, n % 0x100);
    if n <= 255 {
      AllReported(order, st.neighbors);
      assert Entries(order, st.neighbors)[..n] == Entries(order, st.neighbors);
    } else {
      SomeMissing(order, st.neighbors, n % 0x100);
    }
  }

  lemma EnumerationIs(order: seq<word>, keys: set<word>)
    requires Enumerates(order, keys)
    ensures forall k :: k in order ==> k in keys
  {
  }
}
