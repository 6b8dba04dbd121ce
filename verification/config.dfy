/** The constants of the HCP test configuration (hcp/tests/config.py):
    the bucket prefix, the test subject, the data-type, output-kind, onset
    and run-index lists, the MEG channel-name set and the per-task epoch
    windows, with the facts other tests rely on. */
module TestConfig {
  import opened Py

  const HcpPrefix: string := "s3://hcp-openaccess/HCP_900"
  const Subject: string := "105923"

  const HcpDataTypes: seq<string> :=
    ["rest", "task_working_memory", "task_story_math", "task_motor", "noise_empty_room"]

  const HcpOutputs: seq<string> :=
    ["raw", "epochs", "ica", "evoked", "trial_info", "bads"]

  const HcpOnsets: seq<string> := ["stim"]

  /** The run indices that exist per data type. */
  const RunInds: seq<int> := [0, 1, 2]

  /** `MNE_HCP_N_RUNS` when the variable is unset. */
  const DefaultMaxRuns: int := 3

  /** The local data root, before `~` is expanded. */
  const HcpPath: string := "~/mne-hcp-data/HCP"
  const SubjectsDir: string := "~/mne-hcp-data/subjects"

  const TestSubject: string := "105923"
  const TaskTypes: seq<string> := ["task_story_math", "task_working_memory", "task_motor"]
  const NoiseTypes: seq<string> := ["noise_empty_room"]

  /** Epoch window (start, end) in seconds around each trial onset, per data type. */
  const EpochsBounds: map<string, (real, real)> := map[
    "task_motor" := (-1.2, 1.2),
    "task_working_memory" := (-1.5, 2.5),
    "task_story_math" := (-1.5, 4.0),
    "rest" := (0.0, 2.0)
  ]

  /** `os.getenv('MNE_HCP_CHEAP', False)` read as a condition: an unset
      variable is false, and so is only the empty string; every other value,
      "0" and "False" included, switches cheap mode on. */
  function IsCheap(env: Option<string>): (cheap: bool)
    ensures cheap <==> env.Some? && |env.value| > 0
  {
    match env
    case None => false
    case Some(v) => v != ""
  }

  /** Any set value other than the empty string, however it reads, is on. */
  lemma CheapModeTruthiness()
    ensures !IsCheap(None) && !IsCheap(Some(""))
    ensures IsCheap(Some("0")) && IsCheap(Some("False"))
  {
  }

  // ---------------------------------------------------------------------
  // MEG channel names

  /** `'A' + str(i)` */
  function ChannelName(i: nat): string {
    "A" + Str(i)
  }

  /** `{'A' + str(i) for i in range(1, hi)}` */
  function ChannelsBelow(hi: nat): set<string> {
    set i | 1 <= i < hi :: ChannelName(i)
  }

  /** `bti_chans`: the names A1 to A248. */
  function BtiChans(): set<string> {
    ChannelsBelow(249)
  }

  lemma ChannelNameInjective(m: nat, n: nat)
    requires ChannelName(m) == ChannelName(n)
    ensures m == n
  {
    assert Str(m) == ChannelName(m)[1..];
    assert Str(n) == ChannelName(n)[1..];
    StrInjective(m, n);
  }

  lemma {:induction false} ChannelsBelowCount(hi: nat)
    requires hi >= 1
    ensures |ChannelsBelow(hi)| == hi - 1
    decreases hi
  {
    if hi > 1 {
      ChannelsBelowCount(hi - 1);
      var name := ChannelName(hi - 1);
      assert ChannelsBelow(hi) == ChannelsBelow(hi - 1) + {name};
      if name in ChannelsBelow(hi - 1) {
        var i :| 1 <= i < hi - 1 && ChannelName(i) == name;
        ChannelNameInjective(i, hi - 1);
      }
    } else {
      assert ChannelsBelow(hi) == {};
    }
  }

  /** `bti_chans` holds exactly 248 names. */
  lemma BtiChansCount()
    ensures |BtiChans()| == 248
  {
    ChannelsBelowCount(249);
  }

  /** `bti_chans` holds 'A' followed by n exactly when 1 <= n <= 248. */
  lemma BtiChansMembers(n: nat)
    ensures ChannelName(n) in BtiChans() <==> 1 <= n <= 248
  {
    if ChannelName(n) in BtiChans() {
      var i :| 1 <= i < 249 && ChannelName(i) == ChannelName(n);
      ChannelNameInjective(i, n);
    }
  }

  // ---------------------------------------------------------------------
  // Tables consumed by other tests

  /** Every task type has an epoch window, and every window is non-empty. */
  lemma EpochsBoundsCoverTaskTypes()
    ensures forall t :: t in TaskTypes ==> t in EpochsBounds && EpochsBounds[t].0 < EpochsBounds[t].1
    ensures forall t :: t in EpochsBounds ==> EpochsBounds[t].0 < EpochsBounds[t].1
  {
  }

  /** The task and noise types are data types the keys are listed for. */
  lemma TaskAndNoiseTypesAreDataTypes()
    ensures forall t :: t in TaskTypes + NoiseTypes ==> t in HcpDataTypes
  {
  }
}
