/** What each section may hold, spelled out: with the round trips, exactly what its parser accepts. */
module SectionRules {
  import opened Bytes
  import opened Metadata
  import opened Utf8
  import FeatureFlags
  import EcParams
  import DmsPolicy
  import SlabIndex
  import Locators
  import History
  import DirectoryNode

  /** No flag has id zero and no two have the same. */
  lemma FlagsRule(flags: seq<FeatureFlags.FeatureFlag>)
    requires |flags| < 0x1_0000_0000
    ensures FeatureFlags.ValidFlags(flags) <==>
      && (forall i :: 0 <= i < |flags| ==> flags[i].flagId != 0)
      && (forall i, j :: 0 <= i < j < |flags| ==> flags[i].flagId != flags[j].flagId)
  {
  }

  /** Shard counts within the field, the one known polynomial, and no slab overridden twice. */
  lemma EcParamsRule(p: EcParams.EcParams)
    requires |p.overrides| < 0x1_0000_0000
    ensures EcParams.ValidParams(p) <==>
      && 1 <= p.k && 1 <= p.m && p.k as int + p.m as int <= 255 && p.polynomial == 0x011D
      && (forall i :: 0 <= i < |p.overrides| ==>
            var o := p.overrides[i]; 1 <= o.k && 1 <= o.m && o.k as int + o.m as int <= 255)
      && (forall i, j :: 0 <= i < j < |p.overrides| ==> p.overrides[i].slabId != p.overrides[j].slabId)
  {
    var os := p.overrides;
    assert forall i :: 0 <= i < |os| ==> EcParams.OverrideKey(os[i]) == os[i].slabId;
  }

  /** One share per custodian, as many as announced, each named and not empty, all within the ceilings. */
  lemma PolicyRule(max: DmsPolicy.Ceilings, p: DmsPolicy.DmsPolicy)
    ensures DmsPolicy.ValidPolicy(max, p) <==>
      && 1 <= p.k <= p.n && |p.shares| == p.n
      && (p.hint.Some? ==> 0 < |p.hint.value| <= max.hint && IsUtf8(p.hint.value))
      && (forall i :: 0 <= i < |p.shares| ==> var r := p.shares[i];
            0 < |r.custodianId| <= max.hint && IsUtf8(r.custodianId) && 0 < |r.shareData| <= max.shareData)
      && (forall i, j :: 0 <= i < j < |p.shares| ==> p.shares[i].custodianId != p.shares[j].custodianId)
  {
    hide IsUtf8;
    var rs := p.shares;
    assert forall i :: 0 <= i < |rs| ==> DmsPolicy.ShareKey(rs[i]) == rs[i].custodianId;
  }

  /** No slab twice, and each with at least one locator, all of them valid; no entry at all is fine. */
  lemma IndexRule(max: u32, entries: seq<SlabIndex.SlabEntry>)
    requires |entries| < 0x1_0000_0000
    requires forall i :: 0 <= i < |entries| ==> |entries[i].locators| < 0x1_0000_0000
    ensures SlabIndex.ValidIndex(max, entries) <==>
      && (forall i :: 0 <= i < |entries| ==> entries[i].locators != [])
      && (forall i, j :: 0 <= i < |entries| && 0 <= j < |entries[i].locators| ==>
            var uri := entries[i].locators[j]; |uri| <= max && Locators.ValidUri(uri))
      && (forall i, j :: 0 <= i < j < |entries| ==> entries[i].slabId != entries[j].slabId)
  {
    hide Locators.ValidUri;
    assert forall i :: 0 <= i < |entries| ==> SlabIndex.EntryKey(entries[i]) == entries[i].slabId;
  }

  /** At least one entry, and parameters within the ceiling. */
  lemma HistoryRule(ceiling: u32, entries: seq<History.HistoryEntry>)
    requires |entries| < 0x1_0000_0000
    requires forall i :: 0 <= i < |entries| ==> |entries[i].inputs| < 0x1_0000_0000
    ensures History.ValidHistory(ceiling, entries) <==>
      entries != [] && forall i :: 0 <= i < |entries| ==> |entries[i].params| <= ceiling
  {
  }

  /** Names in strictly ascending order, each of them valid, and types from one to four. */
  lemma NodeRule(entries: seq<DirEntry>)
    requires |entries| < 0x1_0000_0000
    ensures DirectoryNode.ValidNode(entries) <==>
      && (forall i :: 0 <= i < |entries| ==> DirectoryNode.ValidName(entries[i].name) && 1 <= entries[i].entryType <= 4)
      && (forall i, j :: 0 <= i < j < |entries| ==> DirectoryNode.Less(entries[i].name, entries[j].name))
  {
    hide DirectoryNode.ValidName, DirectoryNode.Less;
    if DirectoryNode.Ascending(entries) {
      forall i, j | 0 <= i < j < |entries| ensures DirectoryNode.Less(entries[i].name, entries[j].name) {
        DirectoryNode.AscendingPairs(entries, i, j);
      }
    }
  }
}
