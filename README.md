# Traffic light with a message queue: a sequential model

The traffic light of a concurrent traffic simulation has three parts. Its
phase is red or green, and a new light is red. A timing loop toggles the
phase once the milliseconds elapsed since the loop started reach a cycle
length drawn from [4000, 6000], and sends every new phase on a message
queue. A waiter takes phases from that queue until it gets a green one.

This project models these parts sequentially and proves properties about
them.

- `message_queue.dfy` (module `MessageQueues`) models the queue.
  `MessageQueue<T>` is a class whose `queue` field is a `seq<T>`. `Send`
  pushes at the back. `Receive` pops from the back, so the queue is a
  last-in/first-out stack. The source's `receive` blocks while the buffer is
  empty; in the model, a non-empty buffer is a precondition of `Receive`.
  `ReceiveMany` specifies `n` receives in a row, and `Reversed` is an
  independent reference for the order they return.
- `traffic_light.dfy` (module `TrafficLights`) models the light.
  `TrafficLight` is a class with the mutable field `currentPhase` and the
  queue it sends on. `CycleStep` is one iteration of the timing loop, given
  the elapsed milliseconds and the drawn cycle length. `CycleThroughPhases`
  runs that loop once per clock reading in a finite list. Its start time and
  cycle length are fixed for the whole run, because the source reads the
  clock and draws the random number once, before its loop. `Run` is the
  function that specifies this loop. `WaitForGreen` is the waiter's loop,
  specified by `ConsumeUntilGreen`.

The code does not keep to its own comment at src/TrafficLight.cpp:76-78,
which asks for a cycle duration drawn between 4 and 6 seconds for each cycle,
measured between two toggles. In the code, the loop draws
`randomNo` and reads `timeNow` only once, before it starts. So once the
elapsed time reaches the cycle length, every later iteration toggles again,
as long as the clock does not go backwards. The model follows the code:
`FiringPersists` and `EveryIterationFiresAfterThreshold` state this
behaviour, and `RunPublishesAlternation` describes what it sends.

## Model

| member | source | states |
|---|---|---|
| `MessageQueues.MessageQueue.Send` | src/TrafficLight.cpp:27-37 | the buffer becomes the old buffer with `msg` appended at the back; every earlier message keeps its position and value |
| `MessageQueues.MessageQueue.Receive` | src/TrafficLight.cpp:8-25 | on a non-empty buffer, returns the most recently sent message and leaves the old buffer without its last element |
| `MessageQueues.ReceiveMany` | src/TrafficLight.cpp:21-22 | `n` receives on buffer `s` return `n` messages, the `i`-th being `s[|s|-1-i]`, and leave the prefix `s[..|s|-n]` |
| `MessageQueues.SendsThenReceivesReverse` | src/TrafficLight.cpp:21-35 | sending `xs` and then receiving `|xs|` times returns `xs` reversed, each message exactly once, and restores the buffer from before the sends |
| `MessageQueues.SendReceiveRoundTrip` | src/TrafficLight.cpp:21-35 | one send of `m` followed by one receive returns `m` and restores the buffer |
| `MessageQueues.SendThenReceive` | src/TrafficLight.cpp:21-35 | on a queue object, `Send(m)` then `Receive()` returns `m` and leaves the buffer exactly as before |
| `MessageQueues.SendAllThenReceiveAll` | src/TrafficLight.cpp:21-35 | on a queue object, sending all of `xs` and then receiving as many times returns `Reversed(xs)` and leaves the buffer as before |
| `MessageQueues.MessageQueue.constructor` | src/TrafficLight.cpp:42-45 | a new queue holds no messages; the source has no explicit queue constructor, and the light's constructor leaves its member queue default-built and empty |
| `TrafficLights.Toggle` | src/TrafficLight.cpp:98-107 | a toggle always changes the phase, so red goes to green and green goes to red |
| `TrafficLights.ToggleTwiceRestores` | src/TrafficLight.cpp:98-107 | two toggles restore the original phase |
| `TrafficLights.Fires` | src/TrafficLight.cpp:83-96 | the toggle condition with a cycle length drawn from [4000, 6000]: never true before 4000 ms have elapsed, always true from 6000 ms on |
| `TrafficLights.FiringPersists` | src/TrafficLight.cpp:84-96 | with the start time and cycle length fixed and a clock that never goes backwards, once an iteration toggles, every later iteration toggles too |
| `TrafficLights.EveryIterationFiresAfterThreshold` | src/TrafficLight.cpp:84-96 | if the first reading of such a run has crossed the threshold, every reading of the run makes its iteration toggle |
| `TrafficLights.Run` | src/TrafficLight.cpp:88-114 | one loop iteration per clock reading, with the start time and cycle length fixed before the loop; the loop only appends to the queue, at most one phase per iteration, and every phase already queued keeps its place |
| `TrafficLights.FiringCount` | src/TrafficLight.cpp:88-96 | the number of toggling iterations is at most the number of iterations, and is zero when no reading crosses the threshold |
| `TrafficLights.Alternation` | src/TrafficLight.cpp:98-110 | the phases sent by `n` successive toggles from `p` alternate: the `i`-th is the opposite of `p` for even `i` and `p` for odd `i` |
| `TrafficLights.RunPublishesAlternation` | src/TrafficLight.cpp:88-113 | a run of the loop appends to the queue one phase per toggling iteration, alternating from the opposite of the initial phase, and ends in the initial phase after an even number of toggles and in the other phase after an odd number |
| `TrafficLights.RunEndsOnLastPublished` | src/TrafficLight.cpp:98-110 | after a run with at least one toggle, the queue has grown and its back element is the light's current phase |
| `TrafficLights.TrafficLight.constructor` | src/TrafficLight.cpp:42-45 | a new light is red and its queue is empty |
| `TrafficLights.TrafficLight.GetCurrentPhase` | src/TrafficLight.cpp:60-63 | returns the current phase and changes nothing |
| `TrafficLights.TrafficLight.CycleStep` | src/TrafficLight.cpp:96-110 | when the elapsed time reaches the cycle length, the phase toggles and the queue gains exactly one element, the new phase, at the back; otherwise neither the phase nor the queue changes |
| `TrafficLights.TrafficLight.CycleThroughPhases` | src/TrafficLight.cpp:74-116 | the phase and queue after the bounded loop are those given by `Run` with the start time and cycle length fixed before the loop |
| `TrafficLights.ConsumeUntilGreen` | src/TrafficLight.cpp:51-55 | popping from the back until a green is popped succeeds exactly when the buffer holds a green; it then leaves the prefix that ends just before the last green, and every element popped before that green is red |
| `TrafficLights.TrafficLight.WaitForGreen` | src/TrafficLight.cpp:46-58 | returns exactly when the queue held a green, leaving the queue that `ConsumeUntilGreen` gives; otherwise it empties the queue and stops where the source would block |
| `TrafficLights.NewLightIsRed` | src/TrafficLight.cpp:42-63 | a newly built light reports the red phase |
| `TrafficLights.FirstToggleReleasesWaiter` | src/TrafficLight.cpp:46-110 | on a new light, one loop iteration followed by a wait for green: the waiter returns exactly when that iteration toggled, and the light is then green; otherwise it is still red |

## Left out

- The mutex, the lock guards and the condition variable of the queue (src/TrafficLight.cpp:16-19, 34, 36) are thread synchronisation. A blocking `receive` is modelled by the precondition that the buffer is non-empty.
- `TrafficLights.TrafficLight.WaitForGreen`: the source blocks forever in `receive` when the queue empties without a green. The model returns `false` at that point instead.
- `simulate` (src/TrafficLight.cpp:66-70) and the thread container of the base class are thread plumbing. The base class is not part of this model.
- All `sleep_for` delays have no effect on sequential state, so they are left out. These are the 100 ms in `send` and `receive`, the 10 ms in `waitForGreen`, the 1 ms per cycle and the 2000 ms before turning green.
- The system clock and the random generator (src/TrafficLight.cpp:81-87, 94) are foreign calls. Clock readings, the start time and the drawn cycle length are parameters. The cycle length must lie in [4000, 6000]. Readings are whole milliseconds, so the truncation of `duration_cast` is not modelled.
- The console output on each toggle (src/TrafficLight.cpp:102, 107) is I/O.
- The non-terminating `while (true)` timing loop is modelled as one iteration (`CycleStep`) and as a finite run with one iteration per reading (`CycleThroughPhases`).
- The queue's construction: the source builds it by default member initialisation, with no constructor of its own. `MessageQueues.MessageQueue.constructor` stands for that empty initial buffer.
- Move semantics of `send` and `receive` are left out: the model copies values.
