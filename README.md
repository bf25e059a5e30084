# Method-of-constant-stimuli session, modelled in Dafny

This project models the two pieces of logic in the PsychoPy script
`SimpleExperiment.py`. The rest of the script is display, dialog and keyboard
plumbing.

1. **Condition enumeration** (module `Conditions`, `conditions.dfy`). A nested
   loop builds the list of stimulus conditions. It pairs every contrast level
   with every spatial frequency. Contrast is the outer loop and frequency the
   inner one. `BuildConditions` is that loop. `CrossProduct` is its reference
   definition, and the lemmas give its length, its order, its members and how
   often each pair occurs.
2. **Response recording** (module `Responses`, `responses.dfy`). The trial
   loop reads one key per trial from {y, n, q}. "y" records answer 1 and "n"
   records answer 0, then the loop files the answer against the trial
   (`handler.addData`). "q" leaves the loop at once and records nothing for
   that trial. `RunTrials` is that loop. `Session` is its reference
   definition. The lemmas show that the recorded answers are exactly the
   mapped keys of the trials before the first "q", in trial order.
3. **The session end to end** (module `Experiment`, `experiment.dfy`).
   `RunExperiment` builds the conditions and runs the trial loop over the
   schedule that the trial handler produced. The trial handler's schedule is
   abstracted by `IsSchedule`: its trials are the conditions, each repeated
   `stimuliRepetition` times, in some order.

Contrast and frequency values are type parameters, because the script's
values are floats and nothing modelled depends on their arithmetic. Where
concrete values are needed (`ScriptTrialCount`, `ExampleConditions`), the
model uses integer stand-ins: contrasts in hundredths and frequencies in
quarter cycles per degree.

Inputs that come from outside the script are parameters:
- the trial sequence that `data.TrialHandler` yields, constrained only by `IsSchedule`;
- the observer's key presses, as a sequence `keys`, where `keys[i]` is the key pressed on trial `i`.

The script waits for one key per trial, so the model requires
`|trials| <= |keys|`. `event.waitKeys(keyList=["y", "n", "q"])` accepts no
other key, so `Key` has exactly these three values.

## Model

In the table, #s is the length of the sequence s.

| member | source | states |
|---|---|---|
| Conditions.BuildConditions | SimpleExperiment.py:43-46 | the nested loop yields exactly the reference list CrossProduct(cs, fs), which has #cs·#fs entries; CrossProductAt and CrossProductMembers give its order and its members |
| Conditions.RowShape | SimpleExperiment.py:45-46 | one pass of the inner loop appends one condition per frequency, in frequency order, all with the same contrast |
| Conditions.CrossProductLength | SimpleExperiment.py:43-46 | there are #contrasts·#freqs conditions, and none exactly when either list is empty |
| Conditions.CrossProductAt | SimpleExperiment.py:44-46 | contrast is the outer loop and frequency the inner: position i·#fs+j holds (cs[i], fs[j]) |
| Conditions.CrossProductMembers | SimpleExperiment.py:44-46 | a condition is in the list if and only if its contrast is in the contrast list and its frequency in the frequency list |
| Conditions.CrossProductMembersOnly | SimpleExperiment.py:44-46 | every listed condition has a contrast from the contrast list and a frequency from the frequency list |
| Conditions.RowCount | SimpleExperiment.py:45-46 | within one contrast's row, a condition occurs as often as its frequency is listed, and not at all for another contrast |
| Conditions.CrossProductCount | SimpleExperiment.py:43-46 | (c, f) occurs (count of c in contrasts)·(count of f in freqs) times |
| Conditions.UniqueConditions | SimpleExperiment.py:43-46 | with no repeated contrast and no repeated frequency, every condition occurs exactly once |
| Responses.AnswerOf | SimpleExperiment.py:94-97 | key y maps to answer 1 and key n to answer 0, and no other answer arises |
| Responses.FirstQuit | SimpleExperiment.py:98-99 | the position of the first q among the trials' keys, or the trial count if there is none |
| Responses.RunTrials | SimpleExperiment.py:61-101 | the loop records exactly FirstQuit answers; answer k is filed against trials[k] and is the mapped key of trial k; the result equals Session |
| Responses.SessionShape | SimpleExperiment.py:61-101 | the reference session has FirstQuit entries, entry k being (trials[k], mapped keys[k]) |
| Responses.SessionAnswers | SimpleExperiment.py:94-101 | every recorded answer is 0 or 1, and there are never more answers than trials |
| Responses.SessionTrialOrder | SimpleExperiment.py:61-101 | the recorded trials are a prefix of the schedule, in schedule order |
| Responses.SessionAbort | SimpleExperiment.py:98-99 | a first q at trial i leaves exactly the i earlier answers; later trials and keys change nothing |
| Responses.SessionComplete | SimpleExperiment.py:61-101 | with no q, every trial gets an answer |
| Responses.SessionAppend | SimpleExperiment.py:93-101 | while no q has been pressed, one more y appends answer 1, n appends answer 0, and q appends nothing |
| Experiment.RepeatCount | SimpleExperiment.py:27 | listing the conditions reps times multiplies each condition's count and the length by reps |
| Experiment.ScheduleShape | SimpleExperiment.py:47 | a schedule of the conditions with reps repetitions has #conditions·reps trials, each condition reps times as often as it is listed |
| Experiment.ScheduleMembers | SimpleExperiment.py:47 | every scheduled trial is one of the conditions |
| Experiment.ScheduleOfDistinct | SimpleExperiment.py:43-47 | with distinct contrasts and frequencies, the schedule has #cs·#fs·reps trials and each condition exactly reps times |
| Experiment.RunExperiment | SimpleExperiment.py:43-101 | the whole session records at most #conditions·reps answers, exactly that many when no q is pressed, each for a (contrast, frequency) drawn from the two lists |
| Experiment.ScriptTrialCount | SimpleExperiment.py:27-34 | the script's 6 contrasts, 5 frequencies and 10 repetitions give 30 conditions and 300 trials |
| Experiment.ExampleConditions | SimpleExperiment.py:43-46 | contrasts [0, 5] and frequencies [1, 4] (integer stand-ins) give (0,1), (0,4), (5,1), (5,4) in that order |
| Experiment.ExampleAbort | SimpleExperiment.py:93-101 | keys y, n, q on five trials record answers 1 and 0 for the first two trials and nothing else |

## Left out

- Monitor configuration, window creation, drawing of text and gratings, `win.flip`, `core.wait`, `win.close` and `core.quit` (SimpleExperiment.py:13-18, :50-58, :63-91, :108-110) are display I/O through PsychoPy.
- The progress text "Trial thisN / nTotal" (SimpleExperiment.py:63-67) is display only; the trial handler's counters are not modelled.
- The participant-name dialog (SimpleExperiment.py:21-24) is GUI input.
- The shuffling inside `data.TrialHandler` (SimpleExperiment.py:47) is library code. Only its per-condition count is taken as the precondition `IsSchedule`; any order is allowed.
- `saveAsPickle` (SimpleExperiment.py:104) is serialisation to a file by the library. The model stops at the recorded sequence that would be saved.
- The `np.arange` contrast range (SimpleExperiment.py:33) and the background value `-1+2*L/maxL` (SimpleExperiment.py:40) are floating-point arithmetic. Contrast and frequency are abstract types, with integer stand-ins in `ScriptTrialCount`. The count of 6 contrasts follows from evaluating `np.arange(0.0, 0.3, 0.05)` by hand, not from a model of floats.
- The stimulus-type switch that sets `grating.mask` (SimpleExperiment.py:78-79) only configures a rendering object.
- `extraInfo` and the other entries of `infos` (SimpleExperiment.py:24-39) are passed through to the saved file and do not affect the logic modelled.
