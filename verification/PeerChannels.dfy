/** Channel ids of a peer: newChannel scans the 16-bit ids for a free one. */
module PeerChannels {
  const ID_COUNT: int := 0x1_0000

  type Id = x: int | 0 <= x < 0x1_0000

  function Succ(id: Id): Id {
    (id + 1) % ID_COUNT
  }

  /** The k-th id after `id`. */
  function Ahead(id: Id, k: nat): Id {
    (id + k) % ID_COUNT
  }

  class Peer<Channel> {
    var ch: map<Id, Channel>
    var lastcuid: Id

    constructor ()
      ensures ch == map[] && lastcuid == 1
    {
      ch, lastcuid := map[], 1;
    }

    /** Insert the channel under the first free id after lastcuid, wrapping around;
        -1 exactly when no id is free. */
    method NewChannel(channel: Channel) returns (cuid: int)
      modifies this
      ensures lastcuid == (old(lastcuid) + 1) % 65536
      ensures cuid == -1 <==> forall id: Id :: id in old(ch)
      ensures cuid == -1 ==> ch == old(ch)
      ensures cuid != -1 ==>
        && 0 <= cuid < ID_COUNT && cuid !in old(ch) && ch == old(ch)[cuid := channel]
        && forall id: Id :: (id - lastcuid) % 65536 < (cuid - lastcuid) % 65536 ==> id in old(ch)
    {
      hide Ahead;
      lastcuid := Succ(lastcuid);
      var newcuid := lastcuid;
      ghost var k := 0;
      AheadNext(lastcuid, 0);
      while newcuid in ch
        invariant ch == old(ch) && lastcuid == Succ(old(lastcuid))
        invariant 0 <= k < ID_COUNT && newcuid == Ahead(lastcuid, k)
        invariant forall j: nat :: j < k ==> Ahead(lastcuid, j) in ch
        decreases ID_COUNT - k
      {
        AheadNext(lastcuid, k);
        newcuid := Succ(newcuid);
        k := k + 1;
        if newcuid == lastcuid {
          assert k == ID_COUNT;
          forall id: Id
            ensures id in ch
          {
            EveryIdAhead(lastcuid, id);
          }
          return -1;
        }
      }
      AllBefore(ch.Keys, lastcuid, newcuid, k);
      ch := ch[newcuid := channel];
      return newcuid;
    }
  }

  lemma AheadNext(from: Id, k: nat)
    ensures Ahead(from, 0) == from && Ahead(from, k + 1) == Succ(Ahead(from, k))
    ensures k < ID_COUNT ==> (Succ(Ahead(from, k)) == from <==> k == ID_COUNT - 1)
  {
  }

  /** The ids passed by the scan are those before the one it stops at. */
  lemma AllBefore(ids: set<Id>, from: Id, to: Id, k: nat)
    requires k < ID_COUNT && to == Ahead(from, k)
    requires forall j: nat :: j < k ==> Ahead(from, j) in ids
    ensures forall id: Id :: (id - from) % 65536 < (to - from) % 65536 ==> id in ids
  {
    forall id: Id | (id - from) % 65536 < (to - from) % 65536
      ensures id in ids
    {
      assert Ahead(from, (id - from) % 65536) == id;
    }
  }

  lemma EveryIdAhead(from: Id, id: Id)
    ensures exists k: nat :: k < ID_COUNT && Ahead(from, k) == id && (from + k) % 65536 == id
  {
    var k := (id - from) % ID_COUNT;
    assert Ahead(from, k) == id;
  }
}
