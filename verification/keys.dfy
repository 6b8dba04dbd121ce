/** Assembly of `s3_keys`, the list of remote objects the tests need
    (hcp/tests/config.py:37-70): which output kinds go into each batch,
    which runs each batch covers, the cheap-mode filter on the first batch,
    and the concatenation of the four batches. The two key-listing functions
    of the io package are not part of this model: they are parameters. */
module S3Keys {
  import opened Py
  import opened TestConfig

  /** The arguments one call of the MEG key lister receives. */
  datatype Selection = Selection(
    subject: string,
    dataTypes: seq<string>,
    onsets: seq<string>,
    bucket: string,
    outputs: seq<string>,
    runInds: seq<int>)

  /** `get_s3_keys_meg(subject, data_types, onsets, hcp_path_bucket, outputs, run_inds)` */
  type MegLister = Selection -> seq<string>

  /** `get_s3_keys_anatomy(subject, hcp_path_bucket)` */
  type AnatomyLister = (string, string) -> seq<string>

  // ---------------------------------------------------------------------
  // Output selection

  /** `dd in ('raw',)`: membership in a one-element tuple. */
  predicate InRawTuple(dd: string) {
    dd == "raw"
  }

  /** `dd in ('epochs')`: the parentheses make no tuple, so this asks
      whether `dd` is a substring of the word "epochs". */
  predicate InEpochsString(dd: string) {
    Contains("epochs", dd)
  }

  /** `dd not in ('raw', 'epochs')`: absence from a two-element tuple. */
  predicate NotInRawEpochsTuple(dd: string) {
    dd != "raw" && dd != "epochs"
  }

  function RawOutputs(outputs: seq<string>): seq<string> {
    Filter(outputs, InRawTuple)
  }

  function EpochOutputs(outputs: seq<string>): seq<string> {
    Filter(outputs, InEpochsString)
  }

  function OtherOutputs(outputs: seq<string>): seq<string> {
    Filter(outputs, NotInRawEpochsTuple)
  }

  /** Of the configured kinds only "epochs" itself is a substring of "epochs". */
  lemma EpochsFragmentsOfConfig()
    ensures !InEpochsString("raw") && !InEpochsString("ica") && !InEpochsString("evoked")
    ensures !InEpochsString("trial_info") && !InEpochsString("bads") && InEpochsString("epochs")
  {
    assert !InEpochsString("raw") by { MissingCharNotContained("epochs", "raw", 'r'); }
    assert !InEpochsString("ica") by { MissingCharNotContained("epochs", "ica", 'i'); }
    assert !InEpochsString("evoked") by { MissingCharNotContained("epochs", "evoked", 'v'); }
    assert !InEpochsString("trial_info") by { MissingCharNotContained("epochs", "trial_info", 't'); }
    assert !InEpochsString("bads") by { MissingCharNotContained("epochs", "bads", 'b'); }
    assert InEpochsString("epochs") by { assert OccursAt("epochs", "epochs", 0); }
  }

  lemma EpochOutputsOfConfig()
    ensures EpochOutputs(HcpOutputs) == ["epochs"]
  {
    EpochsFragmentsOfConfig();
  }

  lemma OtherOutputsOfConfig()
    ensures OtherOutputs(HcpOutputs) == ["ica", "evoked", "trial_info", "bads"]
  {
  }

  /** Over the configured output kinds the three selections split the list
      in order into ["raw"], ["epochs"] and the four remaining kinds, although
      the second one tests substrings. */
  lemma OutputSelectionsSplitOutputs()
    ensures RawOutputs(HcpOutputs) == ["raw"]
    ensures EpochOutputs(HcpOutputs) == ["epochs"]
    ensures OtherOutputs(HcpOutputs) == ["ica", "evoked", "trial_info", "bads"]
    ensures RawOutputs(HcpOutputs) + EpochOutputs(HcpOutputs) + OtherOutputs(HcpOutputs) == HcpOutputs
  {
    EpochOutputsOfConfig();
    OtherOutputsOfConfig();
    assert RawOutputs(HcpOutputs) == ["raw"];
    assert ["raw"] + ["epochs"] + ["ica", "evoked", "trial_info", "bads"] == HcpOutputs;
  }

  /** The substring test on line 59 is not the tuple test it resembles:
      a fragment of the word, or the empty string, is selected as an
      epochs output too. */
  lemma EpochSelectionIsSubstringTest()
    ensures EpochOutputs(["poch"]) == ["poch"]
    ensures EpochOutputs([""]) == [""]
    ensures OtherOutputs([""]) == [""]
  {
    assert OccursAt("epochs", "poch", 1);
    assert OccursAt("epochs", "", 0);
  }

  /** Where no output kind is a proper fragment of "epochs", the substring
      test selects exactly what the tuple test `dd in ('epochs',)` would. */
  lemma {:induction false} EpochSelectionAgreesWithTupleTest(outputs: seq<string>)
    requires forall dd :: dd in outputs && InEpochsString(dd) ==> dd == "epochs"
    ensures EpochOutputs(outputs) == Filter(outputs, (dd: string) => dd == "epochs")
    decreases |outputs|
  {
    if outputs != [] {
      assert OccursAt("epochs", "epochs", 0);
      assert outputs == [outputs[0]] + outputs[1..];
      EpochSelectionAgreesWithTupleTest(outputs[1..]);
    }
  }

  // ---------------------------------------------------------------------
  // Run capping

  /** `run_inds[:max_runs]` */
  function CappedRuns(maxRuns: int): seq<int> {
    SliceTo(RunInds, maxRuns)
  }

  /** A non-negative cap keeps the first min(cap, 3) runs and never fails;
      a negative cap drops that many runs from the end. */
  lemma CappedRunsValues(maxRuns: int)
    ensures 0 <= maxRuns <= 3 ==> CappedRuns(maxRuns) == seq(maxRuns, i => i)
    ensures maxRuns >= 3 ==> CappedRuns(maxRuns) == [0, 1, 2]
    ensures -3 <= maxRuns < 0 ==> CappedRuns(maxRuns) == seq(3 + maxRuns, i => i)
    ensures maxRuns <= -3 ==> CappedRuns(maxRuns) == []
  {
    var r := CappedRuns(maxRuns);
    assert forall i :: 0 <= i < |r| ==> r[i] == RunInds[i];
  }

  /** With `MNE_HCP_N_RUNS` unset, the default of 3 keeps every run. */
  lemma DefaultKeepsAllRuns()
    ensures CappedRuns(DefaultMaxRuns) == RunInds
  {
    CappedRunsValues(DefaultMaxRuns);
  }

  /** With `MNE_HCP_N_RUNS=2` the capped batches are listed for runs 0 and 1 only. */
  lemma TwoRunsSelectRunsZeroAndOne()
    ensures CappedRuns(2) == [0, 1]
    ensures 2 !in CappedRuns(2)
  {
    CappedRunsValues(2);
  }

  // ---------------------------------------------------------------------
  // Cheap mode

  /** `'Rest' in kk or ('Rest' not in kk and 'config' in kk)` */
  predicate KeepWhenCheap(kk: string) {
    Contains(kk, "Rest") || (!Contains(kk, "Rest") && Contains(kk, "config"))
  }

  /** The middle guard adds nothing: a key is kept exactly when it names
      "Rest" or "config". */
  lemma KeepWhenCheapSimplifies(kk: string)
    ensures KeepWhenCheap(kk) <==> Contains(kk, "Rest") || Contains(kk, "config")
  {
  }

  /** `[kk for kk in s3_keys if ...]` in cheap mode. */
  function CheapFilter(keys: seq<string>): seq<string> {
    Filter(keys, KeepWhenCheap)
  }

  /** The cheap filter keeps, in their order, exactly the keys that contain
      "Rest" or "config", every copy of each, and adds none. */
  lemma CheapFilterKeepsRestAndConfig(keys: seq<string>)
    ensures IsSubsequence(CheapFilter(keys), keys)
    ensures forall k :: k in CheapFilter(keys) <==> k in keys && (Contains(k, "Rest") || Contains(k, "config"))
    ensures forall k :: multiset(CheapFilter(keys))[k]
                     == if Contains(k, "Rest") || Contains(k, "config") then multiset(keys)[k] else 0
  {
    FilterIsSubsequence(keys, KeepWhenCheap);
    forall k ensures k in CheapFilter(keys) <==> k in keys && (Contains(k, "Rest") || Contains(k, "config")) {
      FilterMembers(keys, KeepWhenCheap, k);
    }
    forall k ensures multiset(CheapFilter(keys))[k]
                  == if Contains(k, "Rest") || Contains(k, "config") then multiset(keys)[k] else 0 {
      FilterMultiplicity(keys, KeepWhenCheap, k);
    }
  }

  /** A resting-state configuration key is kept, a motor-task data key is dropped. */
  lemma CheapFilterExample()
    ensures CheapFilter(["105923/MEG/Rest/4D/config", "105923/MEG/Motor/4D/c,rfDC"])
         == ["105923/MEG/Rest/4D/config"]
  {
    var rest, motor := "105923/MEG/Rest/4D/config", "105923/MEG/Motor/4D/c,rfDC";
    assert OccursAt(rest, "Rest", 11);
    MissingCharNotContained(motor, "Rest", 'R');
    MissingCharNotContained(motor, "config", 'g');
    var keys := [rest, motor];
    assert keys[1..] == [motor];
    assert keys[1..][1..] == [];
  }

  // ---------------------------------------------------------------------
  // The key list

  function RawSelection(maxRuns: int): Selection {
    Selection(Subject, HcpDataTypes, HcpOnsets, HcpPrefix, RawOutputs(HcpOutputs), CappedRuns(maxRuns))
  }

  function EpochSelection(maxRuns: int): Selection {
    Selection(Subject, HcpDataTypes, HcpOnsets, HcpPrefix, EpochOutputs(HcpOutputs), CappedRuns(maxRuns))
  }

  function OtherSelection(): Selection {
    Selection(Subject, HcpDataTypes, HcpOnsets, HcpPrefix, OtherOutputs(HcpOutputs), RunInds)
  }

  /** The keys that follow the first batch, never filtered. */
  function LaterBatches(meg: MegLister, anatomy: AnatomyLister, maxRuns: int): seq<string> {
    meg(EpochSelection(maxRuns)) + meg(OtherSelection()) + anatomy(Subject, HcpPrefix)
  }

  /** The value of `s3_keys` once the module has loaded, given the value of
      `MNE_HCP_CHEAP` and the parsed `MNE_HCP_N_RUNS`. */
  function S3KeyList(meg: MegLister, anatomy: AnatomyLister, cheapEnv: Option<string>, maxRuns: int): seq<string> {
    var raw := meg(RawSelection(maxRuns));
    (if IsCheap(cheapEnv) then CheapFilter(raw) else raw) + meg(EpochSelection(maxRuns)) + meg(OtherSelection()) + anatomy(Subject, HcpPrefix)
  }

  /** Builds `s3_keys` as the module does: append the raw batch, filter it in
      cheap mode, then append the epochs, other-output and anatomy batches. */
  method AssembleKeys(meg: MegLister, anatomy: AnatomyLister, cheapEnv: Option<string>, maxRuns: int)
    returns (s3Keys: seq<string>)
    ensures s3Keys == S3KeyList(meg, anatomy, cheapEnv, maxRuns)
  {
    var cheap := IsCheap(cheapEnv);
    s3Keys := [];
    var raw := meg(RawSelection(maxRuns));
    s3Keys := s3Keys + raw;
    assert s3Keys == raw;
    if cheap {
      s3Keys := CheapFilter(s3Keys);
    }
    s3Keys := s3Keys + meg(EpochSelection(maxRuns));
    s3Keys := s3Keys + meg(OtherSelection());
    s3Keys := s3Keys + anatomy(Subject, HcpPrefix);
  }

  /** The raw and epochs batches are listed over the capped runs, the other
      outputs over every run; without cheap mode the list is the four
      batches end to end, duplicates kept. */
  lemma FullKeyListIsFourBatches(meg: MegLister, anatomy: AnatomyLister, cheapEnv: Option<string>, maxRuns: int)
    ensures RawSelection(maxRuns).outputs == ["raw"] && EpochSelection(maxRuns).outputs == ["epochs"]
    ensures OtherSelection().outputs == ["ica", "evoked", "trial_info", "bads"]
    ensures RawSelection(maxRuns).runInds == EpochSelection(maxRuns).runInds == CappedRuns(maxRuns)
    ensures OtherSelection().runInds == RunInds
    ensures !IsCheap(cheapEnv) ==>
              S3KeyList(meg, anatomy, cheapEnv, maxRuns)
              == meg(RawSelection(maxRuns)) + meg(EpochSelection(maxRuns)) + meg(OtherSelection()) + anatomy(Subject, HcpPrefix)
  {
    OutputSelectionsSplitOutputs();
  }

  /** Cheap mode filters the first batch only: the later batches follow it
      unchanged, and the whole list is a subsequence of the one listed with
      the variable unset. */
  lemma {:induction false} CheapModeFiltersRawBatchOnly(meg: MegLister, anatomy: AnatomyLister, cheapEnv: Option<string>, maxRuns: int)
    requires IsCheap(cheapEnv)
    ensures var cheapKeys := S3KeyList(meg, anatomy, cheapEnv, maxRuns);
            var filtered := CheapFilter(meg(RawSelection(maxRuns)));
            cheapKeys == filtered + LaterBatches(meg, anatomy, maxRuns)
    ensures IsSubsequence(S3KeyList(meg, anatomy, cheapEnv, maxRuns), S3KeyList(meg, anatomy, None, maxRuns))
    ensures forall k :: k in S3KeyList(meg, anatomy, cheapEnv, maxRuns) ==>
              k in LaterBatches(meg, anatomy, maxRuns) || (k in meg(RawSelection(maxRuns)) && (Contains(k, "Rest") || Contains(k, "config")))
  {
    var raw := meg(RawSelection(maxRuns));
    var epochs, others, anat := meg(EpochSelection(maxRuns)), meg(OtherSelection()), anatomy(Subject, HcpPrefix);
    var later := LaterBatches(meg, anatomy, maxRuns);
    forall first: seq<string> ensures first + epochs + others + anat == first + later {
      AppendAssoc(first, epochs, others);
      AppendAssoc(first, epochs + others, anat);
    }
    CheapFilterKeepsRestAndConfig(raw);
    SubsequenceRefl(later);
    SubsequenceAppend(CheapFilter(raw), raw, later, later);
  }

  /** `MNE_HCP_CHEAP=0` still switches cheap mode on: the raw batch is
      filtered, while unset or empty leaves it whole. */
  lemma ZeroStillMeansCheap(meg: MegLister, anatomy: AnatomyLister, maxRuns: int)
    ensures S3KeyList(meg, anatomy, Some("0"), maxRuns)
         == CheapFilter(meg(RawSelection(maxRuns))) + LaterBatches(meg, anatomy, maxRuns)
    ensures S3KeyList(meg, anatomy, None, maxRuns) == S3KeyList(meg, anatomy, Some(""), maxRuns)
         == meg(RawSelection(maxRuns)) + LaterBatches(meg, anatomy, maxRuns)
  {
    CheapModeFiltersRawBatchOnly(meg, anatomy, Some("0"), maxRuns);
    var raw := meg(RawSelection(maxRuns));
    var epochs, others, anat := meg(EpochSelection(maxRuns)), meg(OtherSelection()), anatomy(Subject, HcpPrefix);
    AppendAssoc(raw, epochs, others);
    AppendAssoc(raw, epochs + others, anat);
  }
}
