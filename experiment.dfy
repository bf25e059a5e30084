/** The whole session: build the conditions, take the trial schedule the
    trial handler produces from them, and run the trial loop over it. */
module Experiment {
  import opened Conditions
  import opened Responses

  /** The conditions listed reps times over: the trials before shuffling. */
  function Repeat<T>(s: seq<T>, reps: nat): seq<T>
  {
    if reps == 0 then [] else Repeat(s, reps - 1) + s
  }

  /** What is assumed of the trial handler: its trials are the conditions,
      each repeated reps times, in some order. */
  ghost predicate IsSchedule<T>(trials: seq<T>, conds: seq<T>, reps: nat)
  {
    multiset(trials) == multiset(Repeat(conds, reps))
  }

  /** Repeating reps times multiplies every count by reps. */
  lemma {:induction false} RepeatCount<T>(s: seq<T>, reps: nat, x: T)
    ensures multiset(Repeat(s, reps))[x] == reps * multiset(s)[x]
    ensures |Repeat(s, reps)| == reps * |s|
  {
    if reps > 0 {
      RepeatCount(s, reps - 1, x);
      MulNext(reps - 1, multiset(s)[x]);
      MulNext(reps - 1, |s|);
    }
  }

  /** A schedule holds |conds| * reps trials, and each condition reps times
      as often as it is listed. */
  lemma ScheduleShape<T>(trials: seq<T>, conds: seq<T>, reps: nat)
    requires IsSchedule(trials, conds, reps)
    ensures |trials| == |conds| * reps
    ensures forall x :: multiset(trials)[x] == reps * multiset(conds)[x]
  {
    forall x
      ensures multiset(trials)[x] == reps * multiset(conds)[x]
    {
      RepeatCount(conds, reps, x);
    }
    if |conds| > 0 {
      RepeatCount(conds, reps, conds[0]);
    } else {
      assert multiset(trials) == multiset{};
    }
    assert |trials| == |multiset(trials)| == |multiset(Repeat(conds, reps))|;
  }

  /** Every trial of a schedule is one of its conditions. */
  lemma ScheduleMembers<T>(trials: seq<T>, conds: seq<T>, reps: nat)
    requires IsSchedule(trials, conds, reps)
    ensures forall k :: 0 <= k < |trials| ==> trials[k] in conds
  {
    ScheduleShape(trials, conds, reps);
    forall k | 0 <= k < |trials|
      ensures trials[k] in conds
    {
      assert trials[k] in multiset(trials);
    }
  }

  /** The script end to end, with the trial handler's shuffled schedule and
      the observer's keys as inputs. */
  method RunExperiment<C, F>(contrasts: seq<C>, freqs: seq<F>, reps: nat,
                             trials: seq<Condition<C, F>>, keys: seq<Key>)
    returns (conds: seq<Condition<C, F>>, recorded: seq<Response<Condition<C, F>>>)
    requires IsSchedule(trials, CrossProduct(contrasts, freqs), reps)
    requires |trials| <= |keys|
    ensures conds == CrossProduct(contrasts, freqs) && |conds| == |contrasts| * |freqs|
    ensures recorded == Session(trials, keys)
    ensures |recorded| <= |conds| * reps
    ensures (forall k :: 0 <= k < |trials| ==> keys[k] != Q) ==> |recorded| == |conds| * reps
    ensures forall k :: 0 <= k < |recorded| ==>
              recorded[k].trial.contrast in contrasts && recorded[k].trial.freq in freqs
  {
    conds := BuildConditions(contrasts, freqs);
    ScheduleShape(trials, conds, reps);
    ScheduleMembers(trials, conds, reps);
    recorded := RunTrials(trials, keys);
    forall k | 0 <= k < |recorded|
      ensures recorded[k].trial.contrast in contrasts && recorded[k].trial.freq in freqs
    {
      CrossProductMembers(contrasts, freqs, trials[k]);
    }
  }

  /** The script's configuration in integer stand-ins: contrasts in
      hundredths (0.0 to 0.25 in steps of 0.05) and frequencies in quarter
      cycles per degree (0.25, 1, 5, 10, 20). */
  const ScriptContrasts: seq<int> := [0, 5, 10, 15, 20, 25]
  const ScriptFreqs: seq<int> := [1, 4, 20, 40, 80]
  const StimuliRepetition: nat := 10

  /** With distinct contrast levels and frequencies, a schedule holds
      |contrasts| * |freqs| * reps trials, each condition exactly reps times. */
  lemma ScheduleOfDistinct<C, F>(contrasts: seq<C>, freqs: seq<F>, reps: nat, trials: seq<Condition<C, F>>)
    requires forall c :: c in contrasts ==> multiset(contrasts)[c] == 1
    requires forall f :: f in freqs ==> multiset(freqs)[f] == 1
    requires IsSchedule(trials, CrossProduct(contrasts, freqs), reps)
    ensures |trials| == |contrasts| * |freqs| * reps
    ensures forall x :: x in CrossProduct(contrasts, freqs) ==> multiset(trials)[x] == reps
  {
    CrossProductLength(contrasts, freqs);
    UniqueConditions(contrasts, freqs);
    ScheduleShape(trials, CrossProduct(contrasts, freqs), reps);
  }

  /** The script's session has 30 conditions and, at 10 repetitions each,
      300 trials. */
  lemma ScriptTrialCount()
    ensures |CrossProduct(ScriptContrasts, ScriptFreqs)| == 30
    ensures |Repeat(CrossProduct(ScriptContrasts, ScriptFreqs), StimuliRepetition)| == 300
  {
    var conds := CrossProduct(ScriptContrasts, ScriptFreqs);
    CrossProductLength(ScriptContrasts, ScriptFreqs);
    RepeatCount(conds, StimuliRepetition, Condition(0, 1));
  }

  /** Two contrasts and two frequencies give four conditions, contrast
      outermost. */
  lemma ExampleConditions()
    ensures CrossProduct([0, 5], [1, 4]) ==
            [Condition(0, 1), Condition(0, 4), Condition(5, 1), Condition(5, 4)]
  {
    var cs, fs := [0, 5], [1, 4];
    CrossProductLength(cs, fs);
    CrossProductAt(cs, fs, 0, 0);
    CrossProductAt(cs, fs, 0, 1);
    CrossProductAt(cs, fs, 1, 0);
    CrossProductAt(cs, fs, 1, 1);
  }

  /** Keys y, n, q on a five-trial schedule record two answers. */
  lemma ExampleAbort<T>(trials: seq<T>)
    requires |trials| == 5
    ensures Session(trials, [Y, N, Q, Y, Y]) ==
            [Response(trials[0], 1), Response(trials[1], 0)]
  {
    SessionAbort(trials, [Y, N, Q, Y, Y], 2);
    SessionShape(trials, [Y, N, Q, Y, Y]);
  }
}
