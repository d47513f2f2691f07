# Love calculator score, modelled in Dafny

The love calculator page takes two names and turns them into a
"compatibility percentage". It lower-cases both names and concatenates them,
first name first. It then folds a 32-bit rolling hash over the UTF-16 code
units of the result and reports `Math.abs(hash % 101)`. The page shows one of
four messages for the percentage. It only lets the user submit when both
names are non-empty and no calculation is running.

This project models that deterministic core of `calculateLove`,
`getResultMessage` and the button's `disabled` condition:

- `js_int32.dfy` (module `JsInt32`) holds the JavaScript number semantics the
  hash needs. `ToInt32` is the coercion applied by `<<` and `&`. `TruncRem`
  is the remainder `%`, which truncates toward zero. `Abs` is `Math.abs`.
- `love_calculator.dfy` (module `LoveCalculator`) holds the rest:
  - ASCII lower-casing.
  - The loop body `Step` and the fold `Fold`/`Hash` over the code units.
  - The score.
  - The method `CalculateLove`, whose `for` loop mirrors the source loop and
    is proved equal to the fold.
  - The message ladder `ResultMessage`.
  - The button predicate `CanSubmit`.

Names are sequences of UTF-16 code units (`CodeUnit`, 0..65535), the values
`charCodeAt` returns. The loop body is modelled as the source writes it:
`hash << 5` is `ToInt32(ToInt32(hash) * 32)`, the subtraction and addition
are exact, and `hash & hash` is `ToInt32` of the sum. The lemma
`StepIsTimes31` proves that this equals `ToInt32(31 * hash + c)`, which is
the recurrence of Java's `String.hashCode`, since `(hash << 5) - hash` is
31·hash.

## Model

| member | source | states |
|---|---|---|
| `JsInt32.ToInt32` | src/App.tsx:49-50 | the coerced value is a signed 32-bit integer congruent to the input modulo 2^32 (two's-complement wrap) |
| `JsInt32.TruncRem` | src/App.tsx:53 | JavaScript `%`: the remainder lies strictly between -b and b, has the sign of the dividend, and its absolute value is the dividend's absolute value mod b |
| `LoveCalculator.StepIsTimes31` | src/App.tsx:49-50 | one loop iteration, `((hash << 5) - hash) + c` then `& hash`, yields 31·hash + c wrapped into signed 32-bit range, and the result is a signed 32-bit integer |
| `LoveCalculator.Fold` | src/App.tsx:47-51 | the accumulator is unchanged over no code units, and is a signed 32-bit integer after at least one iteration |
| `LoveCalculator.FoldAppend` | src/App.tsx:48-51 | the loop is a left fold: folding over s ++ t equals folding over t from the accumulator left by s |
| `LoveCalculator.HashOfCombined` | src/App.tsx:46-51 | the hash of lower(name1) ++ lower(name2) continues, over lower(name2), from the hash of lower(name1) |
| `LoveCalculator.HashSnoc` | src/App.tsx:48-51 | appending one code unit performs one more iteration: 31·hash + c wrapped to 32 bits, still a signed 32-bit integer |
| `LoveCalculator.ToLower` | src/App.tsx:46 | lower-casing leaves no ASCII capital and keeps the string equal to the input up to ASCII case |
| `LoveCalculator.ToLowerIgnoresCase` | src/App.tsx:46 | strings that differ only in ASCII case lower-case to the same string |
| `LoveCalculator.ToLowerAppend` | src/App.tsx:46 | with ASCII lower-casing, lower-casing each name then concatenating equals lower-casing the concatenation |
| `LoveCalculator.Score` | src/App.tsx:53 | the score is an integer in the closed range 0..100 |
| `LoveCalculator.ScoreIsAbsHashMod101` | src/App.tsx:53 | the score equals \|hash\| mod 101 of the lower-cased concatenation |
| `LoveCalculator.ScoreIgnoresCase` | src/App.tsx:46 | name pairs that differ only in ASCII letter case get the same score |
| `LoveCalculator.ScoreOfUpperCase` | src/App.tsx:46 | upper-casing both names leaves the score unchanged |
| `LoveCalculator.ScoreOfEmptyNames` | src/App.tsx:47-53 | with an empty concatenation the accumulator stays 0 and the score is 0 |
| `LoveCalculator.ScoreNotSymmetric` | src/App.tsx:46 | swapping the names can change the score: ("a","b") scores 75 and ("b","a") scores 4 |
| `LoveCalculator.CalculateLove` | src/App.tsx:40-53 | returns no score exactly when either name is empty; otherwise the loop's result is the fold over lower(name1) ++ lower(name2) and the score lies in 0..100 |
| `LoveCalculator.HashOfJohnJane` | src/App.tsx:47-51 | the hash of "johnjane" wraps to -1429731143 |
| `LoveCalculator.JohnAndJane` | src/App.tsx:41-53 | "John" with "Jane" scores 90 |
| `LoveCalculator.ResultMessage` | src/App.tsx:79-84 | exactly one of four messages, by the bands ≥80, 60–79, 40–59 and <40, first match wins |
| `LoveCalculator.ResultMessageMonotone` | src/App.tsx:79-84 | a higher score never gets a lower-ranked message |
| `LoveCalculator.SubmitComputesScore` | src/App.tsx:122 | the button is enabled exactly when no calculation is running and a click would compute a score (both names non-empty); that score is in 0..100 |

## Left out

- Persistence of each result and the "five most recent" history query (src/App.tsx:25-38, 55-70): these are calls to a remote database client. Ordering and limiting are done by the remote store, not by this code.
- React state (`useState`, `useEffect`, the setters, the `isCalculating` flag's updates): UI framework machinery. The busy flag appears only as a parameter of `CanSubmit`.
- The 1500 ms `setTimeout`, started after the awaited insert and re-fetch, that delays showing the result: timer behaviour.
- JSX rendering and styling, including the condition under which the result is displayed: presentation.
- `console.error` logging of store errors: diagnostic output only.
- `LoveCalculator.ToLower`: models `toLowerCase` only for ASCII A–Z → a–z. Full Unicode case mapping uses locale-independent tables, can change a string's length and depends on context (Greek final sigma), so it is not modelled. In particular, lower-casing each name separately agrees with lower-casing the concatenation (`ToLowerAppend`) only in this ASCII model.
- `LoveCalculator.ResultMessage`: the messages are an enumeration. Their emoji text is not modelled.
- JavaScript numbers are doubles. The model uses unbounded integers because every intermediate value of the loop stays below 2^53, where doubles are exact.
