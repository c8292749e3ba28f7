// The peer book (src/peer_book/peer_book.js): a list of new and a list of tried peers.
module PeerBook {
  import opened Wrappers
  import opened Bucket
  import opened Peers
  import opened Buckets
  import opened Lists
  import B = Books
  import L = PeerList

  const DEFAULT_NEW_BUCKET_COUNT: nat := 128
  const DEFAULT_NEW_BUCKET_SIZE: nat := 32
  const DEFAULT_TRIED_BUCKET_COUNT: nat := 64
  const DEFAULT_TRIED_BUCKET_SIZE: nat := 32

  // The lists of a book that is configured with the secret alone, as the node's is.
  function DefaultNewList(hash: Hash, secret: nat): ListConfig {
    ListConfig(hash, secret, DEFAULT_NEW_BUCKET_COUNT, DEFAULT_NEW_BUCKET_SIZE, NewKind(0))
  }

  function DefaultTriedList(hash: Hash, secret: nat): ListConfig {
    ListConfig(hash, secret, DEFAULT_TRIED_BUCKET_COUNT, DEFAULT_TRIED_BUCKET_SIZE, TriedKind(0))
  }

  class PeerBook {
    const newPeers: L.PeerList
    const triedPeers: L.PeerList

    ghost predicate Valid()
      reads newPeers, triedPeers
    {
      && newPeers != triedPeers && newPeers.Valid() && triedPeers.Valid()
      && newPeers.cfg.kind.NewKind? && triedPeers.cfg.kind.TriedKind?
    }

    ghost function Config(): B.BookConfig {
      B.BookConfig(newPeers.cfg, triedPeers.cfg)
    }

    ghost function State(): B.Book
      reads newPeers, triedPeers
    {
      B.Book(newPeers.peerMap, triedPeers.peerMap)
    }

    constructor (newListConfig: ListConfig, triedListConfig: ListConfig)
      requires newListConfig.bucketCount >= 1 && newListConfig.kind.NewKind?
      requires triedListConfig.bucketCount >= 1 && triedListConfig.kind.TriedKind?
      ensures Valid() && fresh(newPeers) && fresh(triedPeers)
      ensures newPeers.cfg == newListConfig.(kind := L.WithDefaults(newListConfig.kind))
      ensures triedPeers.cfg == triedListConfig.(kind := L.WithDefaults(triedListConfig.kind))
      ensures forall b | 0 <= b < |State().newPeers| :: State().newPeers[b] == []
      ensures forall b | 0 <= b < |State().triedPeers| :: State().triedPeers[b] == []
    {
      newPeers := new L.PeerList(newListConfig);
      triedPeers := new L.PeerList(triedListConfig);
    }

    method GetAllPeers() returns (peers: seq<PeerInfo>)
      ensures peers == AllInfos(State().newPeers) + AllInfos(State().triedPeers)
    {
      var fromNew := newPeers.PeersList();
      var fromTried := triedPeers.PeersList();
      return fromNew + fromTried;
    }

    method GetPeer(info: PeerInfo) returns (r: Option<PeerInfo>)
      requires Valid() && Addressable(info.ipAddress)
      ensures r == B.FindPeer(Config(), State(), info)
    {
      r := triedPeers.GetPeer(info);
      if r.None? {
        r := newPeers.GetPeer(info);
      }
    }

    method UpdatePeer(info: PeerInfo) returns (updated: bool)
      requires Valid() && Addressable(info.ipAddress)
      modifies newPeers, triedPeers
      ensures Valid() && State() == B.UpdatePeer(Config(), old(State()), info)
      ensures updated == B.FindPeer(Config(), old(State()), info).Some?
    {
      var tried := triedPeers.GetPeer(info);
      if tried.Some? {
        updated := triedPeers.UpdatePeer(info);
        return;
      }
      var found := newPeers.GetPeer(info);
      if found.Some? {
        updated := newPeers.UpdatePeer(info);
        return;
      }
      return false;
    }

    method AddPeer(info: PeerInfo, now: int, random: Random) returns (r: L.AddResult)
      requires Valid() && Addressable(info.ipAddress)
      modifies newPeers, triedPeers
      ensures Valid() && State() == B.AddPeer(Config(), old(State()), info, now, random)
      ensures r == if B.FindPeer(Config(), old(State()), info).Some? then L.AddResult(false, false, None)
                   else L.AddResultOf(newPeers.cfg, old(newPeers.peerMap), info, now, random)
    {
      var tried := triedPeers.GetPeer(info);
      var found := newPeers.GetPeer(info);
      if tried.Some? || found.Some? {
        return L.AddResult(false, false, None);
      }
      r := newPeers.AddPeer(info, now, random);
    }

    method RemovePeer(info: PeerInfo) returns (removed: bool)
      requires Valid() && Addressable(info.ipAddress)
      modifies newPeers, triedPeers
      ensures Valid() && State() == B.RemovePeer(Config(), old(State()), info)
      ensures removed == B.FindPeer(Config(), old(State()), info).Some?
    {
      var tried := triedPeers.GetPeer(info);
      if tried.Some? {
        removed := triedPeers.RemovePeer(info);
        return;
      }
      var found := newPeers.GetPeer(info);
      if found.Some? {
        removed := newPeers.RemovePeer(info);
        return;
      }
      return false;
    }

    method UpgradePeer(info: PeerInfo, now: int, random: Random) returns (upgraded: bool)
      requires Valid() && Addressable(info.ipAddress)
      modifies newPeers, triedPeers
      ensures Valid() && State() == B.UpgradePeer(Config(), old(State()), info, now, random)
      ensures upgraded == B.FindPeer(Config(), old(State()), info).Some?
    {
      var tried := triedPeers.GetPeer(info);
      if tried.Some? {
        return true;
      }
      var found := newPeers.GetPeer(info);
      if found.Some? {
        var _ := newPeers.RemovePeer(info);
        var _ := triedPeers.AddPeer(info, now, random);
        return true;
      }
      return false;
    }

    // True when the peer has left the book altogether.
    method DowngradePeer(info: PeerInfo, now: int, random: Random) returns (gone: bool)
      requires Valid() && Addressable(info.ipAddress)
      modifies newPeers, triedPeers
      ensures Valid() && State() == B.DowngradePeer(Config(), old(State()), info, now, random)
      ensures gone == B.InNewList(Config(), old(State()), info)
    {
      var found := newPeers.GetPeer(info);
      if found.Some? {
        var dropped := newPeers.FailedConnectionAction(info);
        if dropped {
          return true;
        }
      }
      var tried := triedPeers.GetPeer(info);
      if tried.Some? {
        var failed := triedPeers.FailedConnectionAction(info);
        if failed {
          var _ := AddPeer(info, now, random);
        }
      }
      return false;
    }
  }
}
