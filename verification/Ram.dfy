/** The RAM model: what a torrent costs, and how many fit a budget. */
module Ram {
  import opened Words

  const KIB: nat := 1024
  const MIB: nat := 1024 * KIB
  const GIB: nat := 1024 * MIB

  const PER_TORRENT_RAM_BASE: nat := 256 * KIB
  const PER_PIECE_RAM: nat := 64
  const PER_PEER_RAM: nat := 48 * KIB
  const MAX_PEER_LIMIT: nat := 20

  /** An unknown piece count (0) is charged as one piece. */
  function TorrentRam(pieceCount: nat, peerLimit: nat): (ram: nat)
    ensures PER_TORRENT_RAM_BASE <= ram <= U64_MAX
  {
    SatAdd64(SatAdd64(PER_TORRENT_RAM_BASE, Min(U64_MAX, PER_PIECE_RAM * Max(pieceCount, 1))),
             Min(U64_MAX, PER_PEER_RAM * peerLimit))
  }

  function PeerLimitForBudget(budget: nat): (limit: nat)
    ensures 4 <= limit <= MAX_PEER_LIMIT
  {
    if budget >= 4 * GIB then 20
    else if budget >= GIB then 12
    else if budget >= 256 * MIB then 8
    else 4
  }

  function TypicalTorrentRam(budget: nat): nat {
    TorrentRam(1024, PeerLimitForBudget(budget))
  }

  datatype RamCap = RamCap(budget: nat, hardCap: nat, maxTorrents: nat)

  /** Unmeasurable RAM (0) disables the count cap: the maximum is then the largest `usize`. */
  function MaxTorrentsForBudget(systemTotal: nat, configuredMaxRam: nat): RamCap {
    if systemTotal == 0 then
      RamCap(configuredMaxRam, 0,
             if configuredMaxRam == 0 then U64_MAX else configuredMaxRam / TypicalTorrentRam(configuredMaxRam))
    else
      var hardCap := systemTotal * 8 / 10;
      var budget := if configuredMaxRam > 0 then Min(configuredMaxRam, hardCap) else hardCap;
      RamCap(budget, hardCap, budget / TypicalTorrentRam(budget))
  }

  /** No 32-bit piece count saturates the price, so it is linear in the pieces. */
  lemma PriceIsLinear(pieceCount: nat, peerLimit: nat)
    requires pieceCount <= U32_MAX && peerLimit <= MAX_PEER_LIMIT
    ensures TorrentRam(pieceCount, peerLimit)
         == PER_TORRENT_RAM_BASE + 64 * Max(pieceCount, 1) + 48 * KIB * peerLimit
  {
  }

  lemma PriceIsMonotone(p: nat, q: nat, peerLimit: nat)
    requires p <= q
    ensures TorrentRam(p, peerLimit) <= TorrentRam(q, peerLimit)
  {
    assert PER_PIECE_RAM * Max(p, 1) <= PER_PIECE_RAM * Max(q, 1);
  }

  /**
   * The budget is what is configured, at most four fifths of the measured memory, all of them if nothing is
   * configured; memory that cannot be measured caps nothing.
   */
  lemma BudgetExactly(systemTotal: nat, configuredMaxRam: nat)
    ensures var cap := MaxTorrentsForBudget(systemTotal, configuredMaxRam);
            && (systemTotal == 0 ==> cap.budget == configuredMaxRam && cap.hardCap == 0)
            && (systemTotal > 0 ==>
                  && 10 * cap.hardCap <= 8 * systemTotal < 10 * (cap.hardCap + 1)
                  && cap.budget == (if configuredMaxRam > 0 then Min(configuredMaxRam, cap.hardCap) else cap.hardCap))
  {
  }

  /**
   * Where memory was measured or a budget configured, the count cap is the exact number of typical torrents the budget pays for,
   * and the budget never exceeds four fifths of its memory.
   */
  lemma CountCapFitsBudget(systemTotal: nat, configuredMaxRam: nat)
    requires systemTotal > 0 || configuredMaxRam > 0
    ensures var cap := MaxTorrentsForBudget(systemTotal, configuredMaxRam);
            && (systemTotal > 0 ==> 10 * cap.budget <= 8 * systemTotal)
            && (configuredMaxRam > 0 ==> cap.budget <= configuredMaxRam)
            && cap.maxTorrents * TypicalTorrentRam(cap.budget) <= cap.budget
            && cap.budget < (cap.maxTorrents + 1) * TypicalTorrentRam(cap.budget)
  {
    var cap := MaxTorrentsForBudget(systemTotal, configuredMaxRam);
    QuotientBrackets(cap.budget, TypicalTorrentRam(cap.budget));
  }

}
