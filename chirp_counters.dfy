/** The chirp counters of the 1D processing. Within a frame the chirps run
    through the transmit antennas for every Doppler bin; the data path counts
    the chirp, the transmit antenna and the Doppler bin, and the parity of the
    chirp count selects the ping or the pong buffer of the 1D output. */
module ChirpCounters {

  /** The chirps of one frame. */
  function FrameChirps(numTxAntennas: nat, numDopplerBins: nat): nat
  {
    numTxAntennas * numDopplerBins
  }

  /** pingPongId: bit 0 of the chirp count. */
  function PingPongId(chirpCount: nat): (id: nat)
    ensures id < 2
  {
    chirpCount % 2
  }

  /** When a frame has an even number of chirps the ping and pong buffers
      alternate on every chirp, across the end of the frame too. */
  lemma {:induction false} PingPongAlternates(c: nat, frame: nat)
    requires c < frame && frame % 2 == 0
    ensures PingPongId((c + 1) % frame) != PingPongId(c)
  {
    ModOf(c + 1, frame);
  }

  class ChirpCounter {
    const numTxAntennas: nat
    const numDopplerBins: nat
    var chirpCount: nat
    var txAntennaCount: nat
    var dopplerBinCount: nat

    /** The chirp count is the position in the frame: all antennas of the
        earlier Doppler bins, then the antennas of the current one. */
    predicate Valid()
      reads this
    {
      && numTxAntennas >= 1 && numDopplerBins >= 1
      && txAntennaCount < numTxAntennas && dopplerBinCount < numDopplerBins
      && chirpCount == dopplerBinCount * numTxAntennas + txAntennaCount
    }

    /** The reset at the start of the data path: every counter at 0. */
    constructor (numTxAntennas: nat, numDopplerBins: nat)
      requires numTxAntennas >= 1 && numDopplerBins >= 1
      ensures Valid() && chirpCount == 0 && txAntennaCount == 0 && dopplerBinCount == 0
      ensures this.numTxAntennas == numTxAntennas && this.numDopplerBins == numDopplerBins
    {
      this.numTxAntennas := numTxAntennas;
      this.numDopplerBins := numDopplerBins;
      chirpCount := 0;
      txAntennaCount := 0;
      dopplerBinCount := 0;
    }

    /** The counter update at the end of OdsDemo_processChirp: the next
        antenna, or the first antenna of the next Doppler bin, or, after the
        last chirp of the frame, everything back to 0. The chirp count
        advances modulo the frame length. */
    method Advance()
      requires Valid()
      modifies this
      ensures Valid()
      ensures chirpCount == (old(chirpCount) + 1) % FrameChirps(numTxAntennas, numDopplerBins)
      ensures old(txAntennaCount) + 1 < numTxAntennas ==>
                txAntennaCount == old(txAntennaCount) + 1 && dopplerBinCount == old(dopplerBinCount)
      ensures old(txAntennaCount) + 1 == numTxAntennas ==>
                txAntennaCount == 0 && dopplerBinCount == (old(dopplerBinCount) + 1) % numDopplerBins
    {
      ghost var c := chirpCount;
      ghost var d := dopplerBinCount;
      ghost var frame := FrameChirps(numTxAntennas, numDopplerBins);
      FrameBound(d, numTxAntennas, numDopplerBins);
      chirpCount := chirpCount + 1;
      txAntennaCount := txAntennaCount + 1;
      if txAntennaCount == numTxAntennas {
        txAntennaCount := 0;
        dopplerBinCount := dopplerBinCount + 1;
        assert (d + 1) * numTxAntennas == d * numTxAntennas + numTxAntennas;
        if dopplerBinCount == numDopplerBins {
          dopplerBinCount := 0;
          chirpCount := 0;
          assert c + 1 == frame;
          ModOf(c + 1, frame);
        } else {
          FrameBound(d + 1, numTxAntennas, numDopplerBins);
          ModOf(c + 1, frame);
        }
        ModOf(d + 1, numDopplerBins);
      } else {
        ModOf(c + 1, frame);
      }
    }
  }

  /** The remainder of a count that reaches at most one frame. */
  lemma ModOf(x: nat, frame: nat)
    requires 0 < frame && x <= frame
    ensures x % frame == (if x == frame then 0 else x)
  {
    if x < frame {
      assert x / frame == 0;
    } else {
      assert x / frame == 1;
    }
  }

  /** The chirps of the Doppler bins up to d all lie in the frame. */
  lemma FrameBound(d: nat, numTxAntennas: nat, numDopplerBins: nat)
    requires d < numDopplerBins
    ensures d * numTxAntennas + numTxAntennas <= FrameChirps(numTxAntennas, numDopplerBins)
    ensures d + 1 == numDopplerBins ==> d * numTxAntennas + numTxAntennas == FrameChirps(numTxAntennas, numDopplerBins)
  {
    var r := numDopplerBins - d - 1;
    calc {
      numTxAntennas * numDopplerBins;
      numTxAntennas * (d + 1 + r);
      numTxAntennas * d + numTxAntennas + numTxAntennas * r;
    }
    assert numTxAntennas * d == d * numTxAntennas;
  }
}
