/** The persisted view of what is held: the two maps and their mutators. Saving is left out. */
module StateFile {
  import opened Words
  import opened Quarantines
  import opened Holdings

  /** A re-probe is over when its verified bytes cover its registered size. */
  predicate CompletionLifts(checked: nat, size: nat) {
    size > 0 && checked >= size
  }

  datatype Update = Update(hash: Hash, change: Torrent -> Torrent)

  function Updated(held: map<Hash, Torrent>, updates: seq<Update>): map<Hash, Torrent> {
    if updates == [] then held
    else
      var before := Updated(held, updates[..|updates| - 1]);
      var u := updates[|updates| - 1];
      if u.hash in before then before[u.hash := u.change(before[u.hash])] else before
  }

  datatype Verified = Verified(hash: Hash, checked: nat)

  function Progressing(held: map<Hash, Torrent>, progress: seq<Verified>, now: int): map<Hash, Torrent> {
    if progress == [] then held
    else
      var before := Progressing(held, progress[..|progress| - 1], now);
      var p := progress[|progress| - 1];
      if p.hash in before then before[p.hash := Progressed(before[p.hash], p.checked, now)] else before
  }

  /** Verified bytes as operations on the books. */
  function ProgressOps(progress: seq<Verified>, now: int): seq<Op> {
    if progress == [] then []
    else
      var p := progress[|progress| - 1];
      ProgressOps(progress[..|progress| - 1], now) + [Refresh(p.hash, None, p.checked, now)]
  }

  lemma {:induction false} ProgressIsRefreshes(cfg: Config, b: Books, progress: seq<Verified>, now: int)
    ensures Run(cfg, b, ProgressOps(progress, now)) == b.(held := Progressing(b.held, progress, now))
    ensures LawfulRun(cfg, b, ProgressOps(progress, now)) && Upkeep(ProgressOps(progress, now))
  {
    if progress != [] {
      var before, p := progress[..|progress| - 1], progress[|progress| - 1];
      ProgressIsRefreshes(cfg, b, before, now);
      RunSnoc(cfg, b, ProgressOps(before, now), Refresh(p.hash, None, p.checked, now));
    }
  }

  function WithoutHashes(quarantined: map<Hash, Quarantine>, hashes: seq<Hash>): map<Hash, Quarantine> {
    if hashes == [] then quarantined
    else WithoutHashes(quarantined, hashes[..|hashes| - 1]) - {hashes[|hashes| - 1]}
  }

  /** What remains is what was not named, unchanged. */
  lemma {:induction false} WithoutHashesKeeps(quarantined: map<Hash, Quarantine>, hashes: seq<Hash>, h: Hash)
    ensures var rest := WithoutHashes(quarantined, hashes);
            && (h in rest <==> h in quarantined && h !in hashes)
            && (h in rest ==> rest[h] == quarantined[h])
  {
    if hashes != [] {
      WithoutHashesKeeps(quarantined, hashes[..|hashes| - 1], h);
      assert hashes == hashes[..|hashes| - 1] + [hashes[|hashes| - 1]];
    }
  }

  class State {
    var torrents: map<Hash, Torrent>
    var quarantined: map<Hash, Quarantine>

    constructor (torrents: map<Hash, Torrent>, quarantined: map<Hash, Quarantine>)
      ensures this.torrents == torrents && this.quarantined == quarantined
    {
      this.torrents, this.quarantined := torrents, quarantined;
    }

    method Put(t: Torrent)
      modifies this`torrents
      ensures torrents == old(torrents)[t.hash := t]
    {
      torrents := torrents[t.hash := t];
    }

    method Remove(h: Hash)
      modifies this`torrents
      ensures torrents == old(torrents) - {h}
    {
      torrents := torrents - {h};
    }

    method QuarantinePut(h: Hash, q: Quarantine)
      modifies this`quarantined
      ensures quarantined == old(quarantined)[h := q]
    {
      quarantined := quarantined[h := q];
    }

    /** One save for both maps, so no crash leaves a hash in both. */
    method QuarantineAndRemove(h: Hash, q: Quarantine)
      modifies this
      ensures quarantined == old(quarantined)[h := q] && torrents == old(torrents) - {h}
    {
      quarantined := quarantined[h := q];
      torrents := torrents - {h};
    }

    method QuarantineRemoveMany(hashes: seq<Hash>) returns (removed: nat)
      modifies this`quarantined
      ensures quarantined == WithoutHashes(old(quarantined), hashes)
      ensures |quarantined| + removed == |old(quarantined)|
    {
      removed := 0;
      for k := 0 to |hashes|
        invariant quarantined == WithoutHashes(old(quarantined), hashes[..k])
        invariant |quarantined| + removed == |old(quarantined)|
      {
        assert hashes[..k + 1][..k] == hashes[..k];
        if hashes[k] in quarantined {
          removed := removed + 1;
          RemoveCounts(quarantined, hashes[k]);
        } else {
          MinusAbsent(quarantined, hashes[k]);
        }
        quarantined := quarantined - {hashes[k]};
      }
      assert hashes[..|hashes|] == hashes;
    }

    method QuarantineRemove(h: Hash) returns (existed: bool)
      modifies this`quarantined
      ensures existed == (h in old(quarantined)) && quarantined == old(quarantined) - {h}
    {
      existed := h in quarantined;
      quarantined := quarantined - {h};
    }

    /** Only a full completion of a registered hash lifts. */
    method LiftCompleted(h: Hash, checked: nat, size: nat) returns (lifted: bool)
      modifies this`quarantined
      ensures lifted == (CompletionLifts(checked, size) && h in old(quarantined))
      ensures quarantined == if lifted then old(quarantined) - {h} else old(quarantined)
    {
      if !CompletionLifts(checked, size) || h !in quarantined {
        return false;
      }
      lifted := QuarantineRemove(h);
    }

    /** Unknown hashes are ignored. */
    method UpdateEach(updates: seq<Update>) returns (changed: nat)
      modifies this`torrents
      ensures torrents == Updated(old(torrents), updates)
      ensures torrents.Keys == old(torrents).Keys
      ensures changed == 0 ==> torrents == old(torrents)
    {
      changed := 0;
      for k := 0 to |updates|
        invariant torrents == Updated(old(torrents), updates[..k])
        invariant torrents.Keys == old(torrents).Keys
        invariant changed == 0 ==> torrents == old(torrents)
      {
        assert updates[..k + 1][..k] == updates[..k];
        var u := updates[k];
        if u.hash in torrents {
          PutPresent(torrents, u.hash, u.change(torrents[u.hash]));
          torrents := torrents[u.hash := u.change(torrents[u.hash])];
          changed := changed + 1;
        }
      }
      assert updates[..|updates|] == updates;
    }

    /** The progress clock moves only where verified bytes grew or were never stamped. */
    method UpdateProgressMany(progress: seq<Verified>, now: int) returns (changed: bool)
      modifies this`torrents
      ensures torrents == Progressing(old(torrents), progress, now)
      ensures !changed ==> torrents == old(torrents)
    {
      changed := false;
      for k := 0 to |progress|
        invariant torrents == Progressing(old(torrents), progress[..k], now)
        invariant !changed ==> torrents == old(torrents)
      {
        assert progress[..k + 1][..k] == progress[..k];
        var p := progress[k];
        if p.hash in torrents {
          var t := torrents[p.hash];
          PutSame(torrents, p.hash);
          if p.checked > t.completed || t.progressAt.None? {
            torrents := torrents[p.hash := t.(completed := p.checked, progressAt := Some(now))];
            changed := true;
          }
        }
      }
      assert progress[..|progress|] == progress;
    }
  }

  lemma RemoveCounts(m: map<Hash, Quarantine>, h: Hash)
    requires h in m
    ensures |m - {h}| + 1 == |m|
  {
    assert (m - {h}).Keys == m.Keys - {h};
  }

  lemma PutPresent(m: map<Hash, Torrent>, h: Hash, t: Torrent)
    requires h in m
    ensures m[h := t].Keys == m.Keys
  {
  }

  lemma PutSame(m: map<Hash, Torrent>, h: Hash)
    requires h in m
    ensures m[h := m[h]] == m
  {
  }

  /** Batched updates with one update a hash are those updates, each where it belongs, and nothing else. */
  lemma {:induction false} UpdatedEach(held: map<Hash, Torrent>, updates: seq<Update>, h: Hash)
    requires h in held && forall i, j :: 0 <= i < j < |updates| ==> updates[i].hash != updates[j].hash
    ensures Updated(held, updates).Keys == held.Keys
    ensures forall i :: 0 <= i < |updates| && updates[i].hash == h ==> Updated(held, updates)[h] == updates[i].change(held[h])
    ensures (forall i :: 0 <= i < |updates| ==> updates[i].hash != h) ==> Updated(held, updates)[h] == held[h]
  {
    if updates != [] {
      var before, u := updates[..|updates| - 1], updates[|updates| - 1];
      UpdatedEach(held, before, h);
      forall i | 0 <= i < |updates| && updates[i].hash == h
        ensures Updated(held, updates)[h] == updates[i].change(held[h])
      {
        assert i < |before| ==> before[i] == updates[i];
      }
      assert forall i :: 0 <= i < |before| ==> before[i] == updates[i];
    }
  }
}
