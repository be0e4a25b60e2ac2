/** The parameter checks of the sections against those of the codes they are for. */
module ParameterChecks {
  import opened Bytes
  import EcParams
  import ReedSolomon
  import DmsPolicy
  import Shamir

  /** The section admits exactly the shard counts the erasure code works with. */
  lemma ShardCountsIff(k: nat, m: nat)
    ensures EcParams.ValidShardCounts(k, m) <==> ReedSolomon.ParamError(k, m).None?
    ensures ReedSolomon.ParamError(k, m).None? <==> 1 <= k && 1 <= m && k + m <= 255
  {
  }

  /** The erasure code takes as many data shards as announced, all of one length. */
  lemma EncodesIff(data: seq<seq<byte>>, k: nat, m: nat)
    ensures ReedSolomon.EncodeError(data, k, m).None? <==>
      && 1 <= k && 1 <= m && k + m <= 255 && |data| == k
      && forall i, j :: 0 <= i < |data| && 0 <= j < |data| ==> |data[i]| == |data[j]|
  {
  }

  /** The section admits what secret sharing works with, and a threshold of one, which `split` refuses. */
  lemma ThresholdsIff(secret: seq<byte>, k: byte, n: byte)
    requires secret != []
    ensures DmsPolicy.ValidShamirParams(k, n) <==> Shamir.SplitError(secret, k, n).None? || (k == 1 && n >= 1)
  {
  }

  /** Splitting takes a secret that is not empty and thresholds from two up to the number of shares, at most 255. */
  lemma SplitsIff(secret: seq<byte>, k: nat, n: nat)
    ensures Shamir.SplitError(secret, k, n).None? <==> secret != [] && 2 <= k <= n <= 255
  {
  }
}
