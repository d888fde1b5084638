# Passwords: a verified model of the password generator

This project models `PasswordGenerator` from the C# library raget/Passwords, together with
the three scripted random sources its test suite uses in place of a cryptographic one.

The generator takes a minimum entropy in bits and a pool of character code points. It
checks its arguments in order: the entropy must be at least 1, then the pool must not be
null, then the computed length must be at most 256. It computes the password length as
`ceil(minimumEntropy / log2(poolCount))`. It then fills the password one position at a time
with `(char) characterList[index]`. Each index comes from `GenerateRandomIndex`, which
draws single bytes from the random source until one passes `IsFairRoll`, and returns that
byte modulo the pool size. `IsFairRoll` accepts a byte only when it falls inside a complete
run of `poolSize` values below 255, so every index is equally likely.

The model is organised as follows:

- `Wrappers`: the `Option` and `Result` datatypes.
- `Casts`: the C# `(byte)` and `(char)` casts, written out as reduction modulo 256 and
  modulo 65536.
- `Arithmetic`: facts about multiplication, division and remainder that the other modules
  share.
- `Pools`: the predefined pools (`Lowers`, `Uppers`, `Numbers`, `Alphanumerics`). LINQ's
  `Union` is modelled as concatenation followed by dropping later duplicates, which keeps
  the order of first occurrence.
- `Fairness`: `IsFairRoll`, and the proof that every index has the same number of
  accepting bytes (no modulo bias).
- `PasswordLength`: the password length, stated exactly as the fewest `L` with
  `poolCount^L >= 2^minimumEntropy`.
- `RejectionSampling`: `GenerateRandomIndex` and the fill loop, as pure functions of the
  bytes the source hands out.
- `FairDraws`: the fair bytes of what a source hands out, and the proof that a run of
  draws reads exactly those bytes, one per index.
- `NumberGenerators`: the scripted sources `SingleNumberGenerator`,
  `IncreasingSequenceNumberGenerator` and `DecreasingSequenceNumberGenerator`.
  - They are classes with their C# fields.
  - Each has a ghost `Upcoming()` schedule of the bytes its future calls will write.
  - They are gathered in the closed datatype `RandomNumberGenerator`.
- `ScheduledDraws`: how draws read off a schedule line up with the source's state after
  each call.
- `Passwords`:
  - the class `PasswordGenerator` with its methods;
  - the function `GeneratePasswordFrom`, which states the whole call as a function of the
    bytes drawn;
  - the lemmas about it.
- `ScriptedRuns`: the test suite's four scripted-source scenarios, as client methods that
  construct the sources and the generator and prove what the password is.

The methods `GeneratePassword`, `FillPassword` and `GenerateRandomIndex` are imperative, as
in the source. Each is proved against its pure counterpart: `GeneratePasswordFrom`,
`DrawIndices` and `DrawIndex`. The source's `do … while` loop runs until a fair byte
arrives. Each method therefore requires that some finite run of the source lets the call
complete, and its ghost out-parameter reports how many bytes the call consumed.

## Model

| member | source | states |
|---|---|---|
| `Passwords.PasswordGenerator.constructor` | Passwords/PasswordGenerator.cs:18-21 | the generator keeps the random source it is given |
| `Passwords.PasswordGenerator.GenerateAlphanumericPassword` | Passwords/PasswordGenerator.cs:31-34 | the call behaves exactly as `GeneratePassword` with the `Alphanumerics` pool: the result is what `GeneratePasswordFrom` gives for the bytes drawn; the source has moved past exactly those bytes; an exception leaves the source untouched |
| `Passwords.PasswordGenerator.GeneratePassword` | Passwords/PasswordGenerator.cs:45-73 | the result (a password or the exception thrown) is `GeneratePasswordFrom` of the bytes the call drew; the source advanced by exactly that many calls; a failing call draws nothing and changes nothing |
| `Passwords.PasswordGenerator.FillPassword` | Passwords/PasswordGenerator.cs:65-72 | the filled password is the pool characters at the indices that `DrawIndices` reads off the consumed bytes; the source advanced past exactly those bytes |
| `Passwords.PasswordGenerator.GenerateRandomIndex` | Passwords/PasswordGenerator.cs:78-87 | the index is below `poolSize`; it is `DrawIndex` of the bytes consumed; the source advanced past exactly those bytes |
| `Passwords.GeneratePasswordFrom` | Passwords/PasswordGenerator.cs:45-76 | the out-of-range error happens exactly when the entropy is below 1, whatever the pool; the null-argument error exactly when the entropy is valid and the pool is null; `PasswordTooLong` exactly when the entropy is valid, the pool has two or more characters and the minimal length exceeds 256; the length overflow exactly when the entropy is valid and the pool has one character; the call throws exactly in these four cases; a valid entropy with an empty pool gives the empty password and draws nothing; a password never uses more bytes than were handed out |
| `Passwords.ServedExactly` | Passwords/PasswordGenerator.cs:45-87 | for a valid entropy and a pool of 2 to 255 characters whose minimal length fits in 256, the call completes exactly when the bytes handed out hold as many fair bytes as the password has characters, and otherwise it waits for more bytes; character `i` is then the pool character at the `i`-th fair byte modulo the pool size |
| `Passwords.PickCharacters` | Passwords/PasswordGenerator.cs:66-70 | built as the loop builds it, one `(char) characterList[index]` appended per draw; its contract gives the result position by position: one character per drawn index, and position `i` is `(char) pool[indices[i]]` |
| `Passwords.GeneratedPassword` | Passwords/PasswordGenerator.cs:57-72 | a generated password: the arguments were valid; its length is at most 256 and is the minimal length meeting the entropy for pools of two or more; it is empty for an empty pool; every character is `(char)` of a pool member |
| `Passwords.FailureDrawsNothing` | Passwords/PasswordGenerator.cs:47-63 | every exception is decided before any byte is drawn, so it is the same whatever bytes the source would hand out |
| `Passwords.GeneratedExtend` | Passwords/PasswordGenerator.cs:65-72 | bytes handed out after the password is complete do not change the password or the byte count |
| `Passwords.DigitsAtLengthCap` | Passwords/PasswordGenerator.cs:59-63 | with the ten digits as the pool, entropy 851 is rejected as too long, and entropy 850 never fails and gives exactly 256 characters |
| `PasswordLength.ComputePasswordLength` | Passwords/PasswordGenerator.cs:75-76 | pools of two or more: the minimal length meeting the entropy, between 1 and the entropy; an empty pool: 0; a one-character pool: no length (the integer conversion overflows) |
| `PasswordLength.MinimalLength` | Passwords/PasswordGenerator.cs:75-76 | `L` meets the target (`n^L >= 2^e`), no shorter length does, and `L <= e` |
| `PasswordLength.MinimalLengthUnique` | Passwords/PasswordGenerator.cs:75-76 | any length that meets the target, while one less does not, is the minimal length (the ceiling is characterised exactly) |
| `PasswordLength.MinimalLengthMonotone` | Passwords/PasswordGenerator.cs:75-76 | a higher entropy target (any `e <= e'`) never gives a shorter password |
| `PasswordLength.DigitsLengthBoundary` | Passwords/PasswordGenerator.cs:75-76 | for ten characters, 850 bits need 256 characters and 851 bits need 257 |
| `Fairness.IsFairRoll` | Passwords/PasswordGenerator.cs:89-97 | the definition, `randomNumber < poolSize * fullSetsOfValues`; `Fairness.FairIffInCompleteSet` and `Fairness.Threshold` characterise it |
| `Fairness.FullSetsOfValues` | Passwords/PasswordGenerator.cs:95 | the definition, `byte.MaxValue / poolSize`; `Fairness.FullSetsOfValuesBounds` states its bounds |
| `Fairness.FullSetsOfValuesBounds` | Passwords/PasswordGenerator.cs:95 | for a pool of 1 to 255, at least one full set fits, and the full sets cover at most 255 values while one more set would not fit |
| `Fairness.Threshold` | Passwords/PasswordGenerator.cs:95-96 | the acceptance bound `poolSize * (255 / poolSize)` is a multiple of the pool size between `poolSize` and 255, and the values from the bound up to 254 are fewer than the pool size |
| `Fairness.FairIffInCompleteSet` | Passwords/PasswordGenerator.cs:89-97 | a byte is fair exactly when the whole run of `poolSize` values containing it fits in 0..254 (below `byte.MaxValue`); 0 is always fair and 255 never is |
| `Fairness.AcceptingBytesCount` | Passwords/PasswordGenerator.cs:84-96 | each index `k` below the pool size is returned for exactly `255 / poolSize` fair bytes |
| `Fairness.NoModuloBias` | Passwords/PasswordGenerator.cs:84-96 | any two indices are returned for the same, positive, number of fair bytes |
| `RejectionSampling.DrawIndex` | Passwords/PasswordGenerator.cs:78-87 | a finished draw consumes at least one of the bytes given, and returns an index below the pool size |
| `RejectionSampling.DrawIndexFirstFair` | Passwords/PasswordGenerator.cs:78-87 | a draw fails exactly when no byte is fair; otherwise it stops at the first fair byte, every earlier byte is rejected, and the index is that byte modulo the pool size |
| `RejectionSampling.DrawIndices` | Passwords/PasswordGenerator.cs:66-70 | `count` draws in a row give `count` indices and consume at least `count` of the bytes given |
| `RejectionSampling.DrawIndicesExtend` | Passwords/PasswordGenerator.cs:66-70 | draws that finish on a prefix of the bytes finish identically on any extension |
| `FairDraws.FairBytesAreFair` | Passwords/PasswordGenerator.cs:89-97 | the fair bytes are exactly the bytes handed out that `IsFairRoll` accepts |
| `FairDraws.FairBytesAppend` | Passwords/PasswordGenerator.cs:78-87 | the fair bytes of two stretches of bytes in a row are those of the first followed by those of the second |
| `FairDraws.DrawIndexFair` | Passwords/PasswordGenerator.cs:78-87 | one draw fails exactly when no byte handed out is fair; otherwise the bytes it reads hold exactly one fair byte, the last one, and the index is that byte modulo the pool size |
| `FairDraws.DrawIndicesFair` | Passwords/PasswordGenerator.cs:66-87 | `count` draws in a row succeed exactly when the bytes hold at least `count` fair bytes; the `i`-th index is then the `i`-th fair byte modulo the pool size, and the bytes read hold exactly the first `count` fair bytes |
| `Pools.Lowers` | Passwords/PasswordGenerator.cs:10 | 26 distinct code points, exactly those from `a` to `z` |
| `Pools.Uppers` | Passwords/PasswordGenerator.cs:11 | 26 distinct code points, exactly those from `A` to `Z` |
| `Pools.Numbers` | Passwords/PasswordGenerator.cs:12 | 10 distinct code points, exactly those from `0` to `9` |
| `Pools.Alphanumerics` | Passwords/PasswordGenerator.cs:14 | no code point twice, and exactly the letters of either case and the digits |
| `Pools.Range` | Passwords/PasswordGenerator.cs:10-12 | the definition of `Enumerable.Range`; `Pools.RangeMembers` states what it holds |
| `Pools.Distinct` | Passwords/PasswordGenerator.cs:14 | LINQ's `Union` keeps each value once: the result has no duplicates, the same members as the input, and keeps them in the order of their first occurrence in the input |
| `Pools.Union` | Passwords/PasswordGenerator.cs:14 | `a.Union(b)` holds each member of `a` or `b` once, in the order of first occurrence in `a` followed by `b` |
| `Pools.RangeMembers` | Passwords/PasswordGenerator.cs:10-12 | `Enumerable.Range(start, count)` has `count` distinct members, exactly the values from `start` to `start + count - 1` |
| `Pools.AlphanumericsLayout` | Passwords/PasswordGenerator.cs:10-14 | 26 lower-case letters, 26 upper-case letters and 10 digits; `Alphanumerics` is them in that order: 62 distinct code points, the letters and digits and nothing else |
| `Casts.ToByte` | Passwords.Tests/Helpers/SingleNumberGenerator.cs:16 | `(byte) x` agrees with `x` modulo 256 and is `x` itself for values in 0..255 |
| `Casts.ToChar16` | Passwords/PasswordGenerator.cs:69 | `(char) x` agrees with `x` modulo 65536 and is `x` itself for values in 0..65535 |
| `NumberGenerators.SingleNumberGenerator.constructor` | Passwords.Tests/Helpers/SingleNumberGenerator.cs:9-12 | the source stores its number |
| `NumberGenerators.SingleNumberGenerator.GetBytes` | Passwords.Tests/Helpers/SingleNumberGenerator.cs:14-17 | writes `(byte) number` into `data[0]` and leaves the rest of `data` unchanged |
| `NumberGenerators.IncreasingSequenceNumberGenerator.constructor` | Passwords.Tests/Helpers/IncreasingSequenceNumberGenerator.cs:10-13 | the source stores its start, and its call counter starts at 0 |
| `NumberGenerators.IncreasingSequenceNumberGenerator.GetBytes` | Passwords.Tests/Helpers/IncreasingSequenceNumberGenerator.cs:15-19 | writes `(byte) (start + callNumber)` into `data[0]`, then increments the counter; the rest of `data` is unchanged |
| `NumberGenerators.DecreasingSequenceNumberGenerator.constructor` | Passwords.Tests/Helpers/DecreasingSequenceNumberGenerator.cs:10-13 | the source stores its start, and its call counter starts at 0 |
| `NumberGenerators.DecreasingSequenceNumberGenerator.GetBytes` | Passwords.Tests/Helpers/DecreasingSequenceNumberGenerator.cs:15-19 | writes `(byte) (start - callNumber)` into `data[0]`, then increments the counter; the rest of `data` is unchanged |
| `NumberGenerators.RandomNumberGenerator.GetBytes` | Passwords/PasswordGenerator.cs:83 | whichever source it is, one call writes the next scheduled byte, leaves the schedule one step on and touches nothing else in `data` |
| `NumberGenerators.CountingByteAt` | Passwords.Tests/Helpers/IncreasingSequenceNumberGenerator.cs:17-18 | the byte written `k` calls from now is the current value plus `k`, as a byte |
| `NumberGenerators.CountingDownByteAt` | Passwords.Tests/Helpers/DecreasingSequenceNumberGenerator.cs:17-18 | the byte written `k` calls from now is the current value minus `k`, as a byte |
| `NumberGenerators.ConstantAdvance` | Passwords.Tests/Helpers/SingleNumberGenerator.cs:14-17 | the constant source is in the same state however many calls it has answered |
| `NumberGenerators.CountingAdvance` | Passwords.Tests/Helpers/IncreasingSequenceNumberGenerator.cs:15-19 | after `k` calls the up-counter continues from its value plus `k`, as a byte |
| `NumberGenerators.CountingDownAdvance` | Passwords.Tests/Helpers/DecreasingSequenceNumberGenerator.cs:15-19 | after `k` calls the down-counter continues from its value minus `k`, as a byte |
| `ScriptedRuns.ConstantDraws` | Passwords.Tests/PasswordGeneratorTests.cs:61-75 | a source that always writes a fair byte `b` gives index `b % n` on every draw, one byte per draw |
| `ScriptedRuns.CountingDraws` | Passwords.Tests/PasswordGeneratorTests.cs:102-120 | a counter from 0 gives the indices 0, 1, ..., n-1, 0, 1, ... on successive draws, and the counter's state after them |
| `ScriptedRuns.CountingDownDraws` | Passwords.Tests/PasswordGeneratorTests.cs:122-142 | a down-counter from `n - 1` gives the indices n-1, n-2, ..., 0, n-1, ... on successive draws, and the counter's state after them |
| `ScriptedRuns.CycledPick` | Passwords.Tests/PasswordGeneratorTests.cs:102-120 | picking the pool at the indices 0, 1, ..., n-1, 0, 1, ... gives the expected password the test builds from the repeated pool |
| `ScriptedRuns.ReversedPick` | Passwords.Tests/PasswordGeneratorTests.cs:122-142 | picking the pool at the indices n-1, n-2, ..., 0, n-1, ... gives the expected password the test builds from the repeated reversed pool |
| `ScriptedRuns.ServedRun` | Passwords/PasswordGenerator.cs:45-72 | for a request the generator serves, if the draws over some run of a source pick `expected`, then that run generates `expected` |
| `ScriptedRuns.ConstantSourceRun` | Passwords.Tests/PasswordGeneratorTests.cs:61-100 | against a constant fair byte `b`, a served request generates the character at index `b % n`, repeated for the minimal length |
| `ScriptedRuns.LastIndexSourceRun` | Passwords.Tests/PasswordGeneratorTests.cs:86-100 | against a source that always writes the last index, a served request generates the last pool character, repeated for the minimal length |
| `ScriptedRuns.IncreasingSourceRun` | Passwords.Tests/PasswordGeneratorTests.cs:102-120 | against a counter from 0, a served request generates the pool repeated end to end, cut to the minimal length |
| `ScriptedRuns.DecreasingSourceRun` | Passwords.Tests/PasswordGeneratorTests.cs:122-142 | against a down-counter from the last index, a served request generates the reversed pool repeated end to end, cut to the minimal length |
| `ScriptedRuns.ScriptedCall` | Passwords.Tests/PasswordGeneratorTests.cs:70 | a completed call on a scripted source generates a password exactly when the request is served, and then it is the run's expected password |
| `ScriptedRuns.ZeroSourceRepeatsFirstCharacter` | Passwords.Tests/PasswordGeneratorTests.cs:61-75 | with a source that always writes 0, the call succeeds exactly for served requests, and the password is the first pool character repeated |
| `ScriptedRuns.LastIndexSourceRepeatsLastCharacter` | Passwords.Tests/PasswordGeneratorTests.cs:86-100 | with a source that always writes the last index, the call succeeds exactly for served requests, and the password is the last pool character repeated |
| `ScriptedRuns.IncreasingSourceCyclesPool` | Passwords.Tests/PasswordGeneratorTests.cs:102-120 | with a counter from 0, the call succeeds exactly for served requests, and the password is the pool repeated end to end |
| `ScriptedRuns.DecreasingSourceCyclesReversedPool` | Passwords.Tests/PasswordGeneratorTests.cs:122-142 | with a down-counter from the last index, the call succeeds exactly for served requests, and the password is the reversed pool repeated end to end |
| `ScriptedRuns.Cycle` | Passwords.Tests/PasswordGeneratorTests.cs:113-117 | built as the test builds it: `count / poolCount + 1` copies of the pool, flattened, cut to `count`, each cast to `char`; `ScriptedRuns.CycleAt` gives it position by position |
| `ScriptedRuns.CycleAt` | Passwords.Tests/PasswordGeneratorTests.cs:113-117 | the expected password the test builds has `count` characters, and character `i` is `(char) pool[i % poolCount]` |
| `ScriptedRuns.FlattenRepeatAt` | Passwords.Tests/PasswordGeneratorTests.cs:113-114 | `k` copies of the pool flattened hold `poolCount * k` elements, element `i` being `pool[i % poolCount]` |
| `ScriptedRuns.Flatten` | Passwords.Tests/PasswordGeneratorTests.cs:114 | `SelectMany(x => x)` holds every element of every sequence given, and nothing else |
| `ScriptedRuns.TakeFirst` | Passwords.Tests/PasswordGeneratorTests.cs:115 | `Take(count)` is a prefix of its input, `count` long or the whole input when that is shorter |
| `ScriptedRuns.ToChars` | Passwords.Tests/PasswordGeneratorTests.cs:116 | `Select(i => (char) i)` keeps the length and casts each element |
| `ScriptedRuns.Reverse` | Passwords.Tests/PasswordGeneratorTests.cs:133 | built by moving the last element to the front, recursively; its contract gives it position by position: element `i` is the element `i` places from the end |
| `ScriptedRuns.Repeat` | Passwords.Tests/PasswordGeneratorTests.cs:72 | built one copy at a time; its contract gives it position by position: `count` elements, each equal to `x` |

## Left out

- `PasswordLength.ComputePasswordLength`:
  - the source computes `Math.Ceiling(minimumEntropy / Math.Log(poolCount, 2))` in double
    precision;
  - the model states the exact mathematical value, the fewest `L` with
    `poolCount^L >= 2^minimumEntropy`;
  - rounding in `Math.Log` or in the division is not modelled.
- `Passwords.PasswordGenerator.GeneratePassword`:
  - pools of more than 255 characters are outside the model (`PoolInScope`);
  - for such pools, the source's `(byte)poolSize` cast in the `IsFairRoll` call truncates
    the pool size, and a pool of exactly 256 makes `IsFairRoll` divide by zero. The
    model leaves this behaviour out.
- `Passwords.PasswordGenerator.GeneratePassword`: the source's `do … while` loop may never
  end. The method instead requires that some finite run of the source lets the call
  complete. `ScriptedRuns.ScriptedCallCompletes`, with the run lemmas, proves this only for the four
  configurations of the tests: a constant 0, a constant `n - 1`, a counter up from 0 and
  a counter down from `n - 1`. Other scripted sources may never complete the call; for
  example `SingleNumberGenerator(255)` never writes a fair byte. `Passwords.ServedExactly`
  says how many fair bytes any source must hand out.
- `Passwords.PasswordGenerator.FillPassword`: the source's `char[]` buffer is modelled as a
  sequence that grows by one character per iteration. The contents are the same, but the
  model does not capture the buffer's in-place update.
- `NumberGenerators.RandomNumberGenerator`:
  - the framework's abstract `RandomNumberGenerator` is closed over the three scripted
    sources;
  - the cryptographic `RNGCryptoServiceProvider` has no model, because its bytes are
    unpredictable;
  - the test cases that only use it to check the length against the entropy
    (`PasswordLengthMeetsMinimalEntropy`) are covered by `Passwords.GeneratedPassword`
    for any source.
- `NumberGenerators.SingleNumberGenerator.GetBytes`: the `data.Length >= 1` precondition
  stands for the source's `IndexOutOfRangeException` on an empty array.
- `NumberGenerators.IncreasingSequenceNumberGenerator.GetBytes`:
  - the `int` call counter is unbounded in the model;
  - the 32-bit wrap-around after 2^31 calls is not modelled;
  - the byte written is the same either way, because `(byte)` keeps only the low eight
    bits;
  - the `data.Length >= 1` precondition stands for the source's `IndexOutOfRangeException`
    on an empty array.
- `NumberGenerators.DecreasingSequenceNumberGenerator.GetBytes`: the same unbounded counter
  and `data.Length >= 1` precondition as the increasing source.
- `Pools`:
  - the pools are sequences of `int` code points;
  - `characterPool.ToList()` is the identity on a sequence;
  - the lazy `IEnumerable` evaluation is not modelled.
- The test suite refers to a pool named `Digits`. Passwords/PasswordGenerator.cs declares
  it as `Numbers`, and the model follows the code (`Pools.Numbers`).
- Thread safety, disposal of the random source and the `string` constructor's allocation
  are not modelled.
- Passwords/IPasswordGenerator.cs, Passwords/DefaultPasswordGenerator.cs and
  Examples/Program.cs are not part of this model: they are an interface, a wrapper that
  supplies the cryptographic source, and a console example.
- The NUnit harness (fixtures, `TestCaseSource` tables, `Assert.That`) is not modelled. The
  four scripted scenarios are proved for every entropy and every pool of 1 to 255
  characters, not only for the listed cases.
