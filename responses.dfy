/** The trial loop of the session: for each scheduled trial one key is read
    from {y, n, q}; "y" records answer 1, "n" records answer 0, and "q" stops
    the session at once without recording anything for that trial.
    The trials are a given sequence (what the trial handler yields) and the
    keys a given sequence (keys[i] is the key pressed on trial i). */
module Responses {

  /** The only keys the answer prompt accepts. */
  datatype Key = Y | N | Q

  /** One recorded answer, filed against the trial it was given on. */
  datatype Response<T> = Response(trial: T, answer: int)

  /** The answer a non-quit key records: 1 for "y" (seen), 0 for "n". */
  function AnswerOf(k: Key): (a: int)
    requires k != Q
    ensures a == 1 <==> k == Y
    ensures a == 0 <==> k == N
  {
    match k
    case Y => 1
    case N => 0
  }

  /** The position of the first "q" among the first n keys, or n if there is
      none. */
  function FirstQuit(keys: seq<Key>, n: nat): (q: nat)
    requires n <= |keys|
    ensures q <= n
    ensures forall i :: 0 <= i < q ==> keys[i] != Q
    ensures q < n ==> keys[q] == Q
  {
    if n == 0 || keys[0] == Q then 0 else 1 + FirstQuit(keys[1..], n - 1)
  }

  /** The answers a session records, trial by trial, as a reference
      definition. */
  function Session<T>(trials: seq<T>, keys: seq<Key>): seq<Response<T>>
    requires |trials| <= |keys|
  {
    if |trials| == 0 || keys[0] == Q then []
    else [Response(trials[0], AnswerOf(keys[0]))] + Session(trials[1..], keys[1..])
  }

  /** The trial loop: walk the trials in order, read the trial's key, record
      its answer, and leave the loop on "q". */
  method RunTrials<T>(trials: seq<T>, keys: seq<Key>) returns (recorded: seq<Response<T>>)
    requires |trials| <= |keys|
    ensures recorded == Session(trials, keys)
    ensures |recorded| == FirstQuit(keys, |trials|)
    ensures forall k :: 0 <= k < |recorded| ==>
              recorded[k] == Response(trials[k], AnswerOf(keys[k]))
  {
    recorded := [];
    var i := 0;
    while i < |trials|
      invariant i <= |trials|
      invariant |recorded| == i
      invariant forall k :: 0 <= k < i ==>
                  keys[k] != Q && recorded[k] == Response(trials[k], AnswerOf(keys[k]))
    {
      var key := keys[i];
      var answer: int;
      if key == Y {
        answer := 1;
      } else if key == N {
        answer := 0;
      } else {
        break;
      }
      recorded := recorded + [Response(trials[i], answer)];
      i := i + 1;
    }
    var q := FirstQuit(keys, |trials|);
    assert !(i < q) && !(q < i);
    SessionShape(trials, keys);
  }

  /** The reference session records exactly the trials before the first "q",
      each with the answer its key maps to. */
  lemma {:induction false} SessionShape<T>(trials: seq<T>, keys: seq<Key>)
    requires |trials| <= |keys|
    ensures |Session(trials, keys)| == FirstQuit(keys, |trials|)
    ensures forall k :: 0 <= k < |Session(trials, keys)| ==>
              Session(trials, keys)[k] == Response(trials[k], AnswerOf(keys[k]))
  {
    if |trials| > 0 && keys[0] != Q {
      SessionShape(trials[1..], keys[1..]);
    }
  }

  /** Every recorded answer is 0 or 1, and the answers never outnumber the
      trials. */
  lemma {:induction false} SessionAnswers<T>(trials: seq<T>, keys: seq<Key>)
    requires |trials| <= |keys|
    ensures |Session(trials, keys)| <= |trials|
    ensures forall k :: 0 <= k < |Session(trials, keys)| ==>
              Session(trials, keys)[k].answer == 0 || Session(trials, keys)[k].answer == 1
  {
    SessionShape(trials, keys);
  }

  /** The recorded trials are the scheduled ones, in order, up to the first
      "q": an aborted session records a prefix of the schedule. */
  lemma {:induction false} SessionTrialOrder<T>(trials: seq<T>, keys: seq<Key>)
    requires |trials| <= |keys|
    ensures |Session(trials, keys)| <= |trials|
    ensures TrialsOf(Session(trials, keys)) == trials[..|Session(trials, keys)|]
  {
    SessionShape(trials, keys);
  }

  /** The trials the responses were given on, in recording order. */
  function TrialsOf<T>(rs: seq<Response<T>>): seq<T>
  {
    seq(|rs|, k requires 0 <= k < |rs| => rs[k].trial)
  }

  /** Abort: when the first "q" is pressed on trial i (counting from 0),
      exactly the i answers of the earlier trials are recorded, and neither
      the later trials nor the later keys change anything. */
  lemma SessionAbort<T>(trials: seq<T>, keys: seq<Key>, i: nat)
    requires |trials| <= |keys|
    requires i < |trials| && keys[i] == Q
    requires forall k :: 0 <= k < i ==> keys[k] != Q
    ensures |Session(trials, keys)| == i
    ensures Session(trials, keys) == Session(trials[..i], keys[..i])
  {
    SessionShape(trials, keys);
    SessionShape(trials[..i], keys[..i]);
    assert FirstQuit(keys, |trials|) == i;
    assert FirstQuit(keys[..i], i) == i;
  }

  /** Completion: with no "q" among the trials' keys, every trial gets an
      answer. */
  lemma {:induction false} SessionComplete<T>(trials: seq<T>, keys: seq<Key>)
    requires |trials| <= |keys|
    requires forall k :: 0 <= k < |trials| ==> keys[k] != Q
    ensures |Session(trials, keys)| == |trials|
  {
    SessionShape(trials, keys);
  }

  /** One more trial: while no "q" has been pressed, a "y" appends answer 1,
      an "n" appends answer 0, and a "q" appends nothing. */
  lemma SessionAppend<T>(trials: seq<T>, t: T, keys: seq<Key>)
    requires |trials| < |keys|
    requires forall k :: 0 <= k < |trials| ==> keys[k] != Q
    ensures keys[|trials|] == Y ==> Session(trials + [t], keys) == Session(trials, keys) + [Response(t, 1)]
    ensures keys[|trials|] == N ==> Session(trials + [t], keys) == Session(trials, keys) + [Response(t, 0)]
    ensures keys[|trials|] == Q ==> Session(trials + [t], keys) == Session(trials, keys)
  {
    var n := |trials|;
    var longer := trials + [t];
    SessionShape(trials, keys);
    SessionShape(longer, keys);
    assert FirstQuit(keys, n) == n;
    if keys[n] == Q {
      assert FirstQuit(keys, n + 1) == n;
    } else {
      assert FirstQuit(keys, n + 1) == n + 1;
      assert longer[n] == t;
    }
  }
}
