/** The deterministic core of the love calculator page: the name-pair
    score computed by `calculateLove`, the message ladder of
    `getResultMessage`, and the rule that gates the "Calculate Love" button.

    Names are sequences of UTF-16 code units, the values `charCodeAt`
    reads. Lower-casing maps the ASCII capitals A-Z to a-z and leaves every
    other code unit alone. */
module LoveCalculator {
  import opened JsInt32

  /** A UTF-16 code unit, as returned by `String.prototype.charCodeAt`. */
  type CodeUnit = c: int | 0 <= c < 0x1_0000

  datatype Option<T> = None | Some(value: T)

  // ---------------------------------------------------------------------
  // Lower-casing

  predicate IsAsciiUpper(c: CodeUnit) {
    'A' as int <= c <= 'Z' as int
  }

  predicate IsAsciiLower(c: CodeUnit) {
    'a' as int <= c <= 'z' as int
  }

  /** Two code units that spell the same letter up to ASCII case, or are
      the same unit. */
  predicate SameUnitIgnoringCase(a: CodeUnit, b: CodeUnit) {
    a == b
    || (IsAsciiUpper(a) && b == a + 32)
    || (IsAsciiUpper(b) && a == b + 32)
  }

  /** Two strings that differ only in the case of ASCII letters. */
  predicate SameIgnoringCase(s: seq<CodeUnit>, t: seq<CodeUnit>) {
    |s| == |t| && forall i :: 0 <= i < |s| ==> SameUnitIgnoringCase(s[i], t[i])
  }

  function LowerUnit(c: CodeUnit): CodeUnit {
    if IsAsciiUpper(c) then c + 32 else c
  }

  function UpperUnit(c: CodeUnit): CodeUnit {
    if IsAsciiLower(c) then c - 32 else c
  }

  /** `toLowerCase`, restricted to ASCII: the result has no capital letter
      left and spells the same thing as the input up to case. */
  function ToLower(s: seq<CodeUnit>): (r: seq<CodeUnit>)
    ensures SameIgnoringCase(s, r)
    ensures forall i :: 0 <= i < |r| ==> !IsAsciiUpper(r[i])
  {
    seq(|s|, i requires 0 <= i < |s| => LowerUnit(s[i]))
  }

  /** `toUpperCase`, restricted to ASCII; only used to state that the score
      ignores case. */
  function ToUpper(s: seq<CodeUnit>): (r: seq<CodeUnit>)
    ensures SameIgnoringCase(s, r)
    ensures forall i :: 0 <= i < |r| ==> !IsAsciiLower(r[i])
  {
    seq(|s|, i requires 0 <= i < |s| => UpperUnit(s[i]))
  }

  /** Strings equal up to ASCII case lower-case to the same string. */
  lemma ToLowerIgnoresCase(s: seq<CodeUnit>, t: seq<CodeUnit>)
    requires SameIgnoringCase(s, t)
    ensures ToLower(s) == ToLower(t)
  {
    forall i | 0 <= i < |s|
      ensures ToLower(s)[i] == ToLower(t)[i]
    {
      assert SameUnitIgnoringCase(s[i], t[i]);
    }
  }

  /** Lower-casing each name and concatenating is the same as lower-casing
      the concatenation: the mapping works unit by unit. */
  lemma {:induction false} ToLowerAppend(s: seq<CodeUnit>, t: seq<CodeUnit>)
    ensures ToLower(s) + ToLower(t) == ToLower(s + t)
  {
    var l, r := ToLower(s) + ToLower(t), ToLower(s + t);
    forall i | 0 <= i < |s + t|
      ensures l[i] == r[i]
    {
      if i < |s| {
        assert (s + t)[i] == s[i];
      } else {
        assert (s + t)[i] == t[i - |s|];
      }
    }
  }

  // ---------------------------------------------------------------------
  // The rolling hash

  /** One iteration of the loop body: `hash = ((hash << 5) - hash) + c`
      followed by `hash = hash & hash`. The shift coerces `hash` to a signed
      32-bit value and wraps; the subtraction and addition are exact, since
      every intermediate value stays far below 2^53; `hash & hash` wraps the
      sum back into signed 32-bit range. */
  function Step(hash: int, c: CodeUnit): int {
    var shifted := ToInt32(ToInt32(hash) * 32);
    ToInt32(shifted - hash + c)
  }

  /** The loop body is the recurrence of Java's `String.hashCode`: the new
      accumulator is 31 * hash + c wrapped into signed 32-bit range. */
  lemma StepIsTimes31(hash: int, c: CodeUnit)
    ensures Step(hash, c) == ToInt32(31 * hash + c)
    ensures IsInt32(Step(hash, c))
  {
    var h := ToInt32(hash);
    var shifted := ToInt32(h * 32);
    // h == hash + k * 2^32 and shifted == h * 32 + j * 2^32
    var k := (h - hash) / Two32;
    var j := (shifted - h * 32) / Two32;
    assert h - hash == k * Two32;
    assert shifted - h * 32 == j * Two32;
    assert (shifted - hash + c) - (31 * hash + c) == (32 * k + j) * Two32;
    ModMultiple(32 * k + j);
    ToInt32Congruent(shifted - hash + c, 31 * hash + c);
  }

  /** The loop as a left fold: continue from accumulator `acc` over the
      code units of `s`, in order. */
  function Fold(acc: int, s: seq<CodeUnit>): (r: int)
    decreases |s|
    ensures s == [] ==> r == acc
    ensures s != [] ==> IsInt32(r)
    ensures IsInt32(acc) ==> IsInt32(r)
  {
    if s == [] then acc
    else Fold(Step(acc, s[0]), s[1..])
  }

  /** The hash of a whole string: the fold from the initial `hash = 0`. */
  function Hash(s: seq<CodeUnit>): int {
    Fold(0, s)
  }

  /** Folding over a concatenation is folding over the second part from
      the accumulator the first part left behind. */
  lemma {:induction false} FoldAppend(acc: int, s: seq<CodeUnit>, t: seq<CodeUnit>)
    decreases |s|
    ensures Fold(acc, s + t) == Fold(Fold(acc, s), t)
  {
    if s == [] {
      assert s + t == t;
    } else {
      assert (s + t)[0] == s[0];
      assert (s + t)[1..] == s[1..] + t;
      FoldAppend(Step(acc, s[0]), s[1..], t);
    }
  }

  /** The hash of `lower(name1) ++ lower(name2)` continues, over the second
      name, from the hash of the first. */
  lemma HashOfCombined(name1: seq<CodeUnit>, name2: seq<CodeUnit>)
    ensures Hash(ToLower(name1) + ToLower(name2))
         == Fold(Hash(ToLower(name1)), ToLower(name2))
  {
    FoldAppend(0, ToLower(name1), ToLower(name2));
  }

  /** One more code unit on the end of the string is one more loop
      iteration, i.e. 31 * hash + c wrapped to 32 bits. */
  lemma HashSnoc(s: seq<CodeUnit>, c: CodeUnit)
    ensures Hash(s + [c]) == ToInt32(31 * Hash(s) + c)
    ensures IsInt32(Hash(s + [c]))
  {
    FoldAppend(0, s, [c]);
    assert Fold(Hash(s), [c]) == Step(Hash(s), c);
    StepIsTimes31(Hash(s), c);
  }

  // ---------------------------------------------------------------------
  // The score

  /** `Math.abs(hash % 101)` of the hash of the lower-cased names,
      concatenated first name first. */
  function Score(name1: seq<CodeUnit>, name2: seq<CodeUnit>): (r: int)
    ensures 0 <= r <= 100
  {
    Abs(TruncRem(Hash(ToLower(name1) + ToLower(name2)), 101))
  }

  /** Because the remainder keeps the dividend's sign and the absolute value
      is taken afterwards, the score is |hash| mod 101. */
  lemma ScoreIsAbsHashMod101(name1: seq<CodeUnit>, name2: seq<CodeUnit>)
    ensures Score(name1, name2) == Abs(Hash(ToLower(name1) + ToLower(name2))) % 101
  {
  }

  /** Name pairs that differ only in ASCII letter case get the same score. */
  lemma ScoreIgnoresCase(a1: seq<CodeUnit>, a2: seq<CodeUnit>, b1: seq<CodeUnit>, b2: seq<CodeUnit>)
    requires SameIgnoringCase(a1, b1) && SameIgnoringCase(a2, b2)
    ensures Score(a1, a2) == Score(b1, b2)
  {
    ToLowerIgnoresCase(a1, b1);
    ToLowerIgnoresCase(a2, b2);
  }

  /** In particular, shouting both names does not change the score. */
  lemma ScoreOfUpperCase(name1: seq<CodeUnit>, name2: seq<CodeUnit>)
    ensures Score(ToUpper(name1), ToUpper(name2)) == Score(name1, name2)
  {
    ScoreIgnoresCase(name1, name2, ToUpper(name1), ToUpper(name2));
  }

  /** With nothing to fold the accumulator stays 0, so the score is 0. */
  lemma ScoreOfEmptyNames()
    ensures Hash(ToLower([]) + ToLower([])) == 0
    ensures Score([], []) == 0
  {
    assert ToLower([]) + ToLower([]) == [];
  }

  /** The score is not symmetric: "a" with "b" hashes "ab" (3105, score 75)
      while "b" with "a" hashes "ba" (3135, score 4). */
  lemma ScoreNotSymmetric()
    ensures Score([97], [98]) == 75
    ensures Score([98], [97]) == 4
  {
    assert ToLower([97]) + ToLower([98]) == [97, 98];
    assert ToLower([98]) + ToLower([97]) == [98, 97];
    assert Hash([97, 98]) == 3105 by {
      assert [97, 98][1..] == [98];
      assert Step(0, 97) == 97;
      assert Step(97, 98) == 3105;
    }
    assert Hash([98, 97]) == 3135 by {
      assert [98, 97][1..] == [97];
      assert Step(0, 98) == 98;
      assert Step(98, 97) == 3135;
    }
  }

  // ---------------------------------------------------------------------
  // calculateLove

  /** What `calculateLove` computes: nothing when a name is empty (the
      early return), otherwise the score of the pair. */
  function Calculate(name1: seq<CodeUnit>, name2: seq<CodeUnit>): Option<int> {
    if name1 == [] || name2 == [] then None else Some(Score(name1, name2))
  }

  /** The score part of `calculateLove`: the early return on an empty name,
      then the loop over the code units of the lower-cased concatenation. */
  method CalculateLove(name1: seq<CodeUnit>, name2: seq<CodeUnit>) returns (percentage: Option<int>)
    ensures percentage == Calculate(name1, name2)
    ensures percentage.None? <==> name1 == [] || name2 == []
    ensures percentage.Some? ==> 0 <= percentage.value <= 100
  {
    if name1 == [] || name2 == [] {
      return None;
    }
    var combinedNames := ToLower(name1) + ToLower(name2);
    var hash := 0;
    for i := 0 to |combinedNames|
      invariant IsInt32(hash)
      invariant hash == Hash(combinedNames[..i])
    {
      ghost var previous := hash;
      hash := (ToInt32(ToInt32(hash) * 32) - hash) + combinedNames[i];
      hash := ToInt32(hash);
      assert combinedNames[..i + 1] == combinedNames[..i] + [combinedNames[i]];
      HashSnoc(combinedNames[..i], combinedNames[i]);
      StepIsTimes31(previous, combinedNames[i]);
    }
    assert combinedNames[..|combinedNames|] == combinedNames;
    percentage := Some(Abs(TruncRem(hash, 101)));
  }

  /** Hash(s + [c]) from a known Hash(s), one iteration at a time. */
  lemma HashStep(s: seq<CodeUnit>, c: CodeUnit, h: int, r: int)
    requires Hash(s) == h && ToInt32(31 * h + c) == r
    ensures Hash(s + [c]) == r
  {
    HashSnoc(s, c);
  }

  /** "johnjane" wraps twice on the way: the hash ends at -1429731143. */
  lemma HashOfJohnJane()
    ensures Hash([106, 111, 104, 110, 106, 97, 110, 101]) == -1429731143
  {
    assert [] + [106] == [106];
    HashStep([], 106, 0, 106);
    assert [106] + [111] == [106, 111];
    HashStep([106], 111, 106, 3397);
    assert [106, 111] + [104] == [106, 111, 104];
    HashStep([106, 111], 104, 3397, 105411);
    assert [106, 111, 104] + [110] == [106, 111, 104, 110];
    HashStep([106, 111, 104], 110, 105411, 3267851);
    assert [106, 111, 104, 110] + [106] == [106, 111, 104, 110, 106];
    HashStep([106, 111, 104, 110], 106, 3267851, 101303487);
    assert [106, 111, 104, 110, 106] + [97] == [106, 111, 104, 110, 106, 97];
    HashStep([106, 111, 104, 110, 106], 97, 101303487, -1154559102);
    assert [106, 111, 104, 110, 106, 97] + [110] == [106, 111, 104, 110, 106, 97, 110];
    HashStep([106, 111, 104, 110, 106, 97], 110, -1154559102, -1431593684);
    assert [106, 111, 104, 110, 106, 97, 110] + [101] == [106, 111, 104, 110, 106, 97, 110, 101];
    HashStep([106, 111, 104, 110, 106, 97, 110], 101, -1431593684, -1429731143);
  }

  /** A worked pair: "John" with "Jane" lower-cases to "johnjane", whose
      hash wraps to -1429731143, giving 1429731143 mod 101 == 90. */
  lemma JohnAndJane()
    ensures Calculate([74, 111, 104, 110], [74, 97, 110, 101]) == Some(90)
  {
    assert ToLower([74, 111, 104, 110]) == [106, 111, 104, 110];
    assert ToLower([74, 97, 110, 101]) == [106, 97, 110, 101];
    assert [106, 111, 104, 110] + [106, 97, 110, 101] == [106, 111, 104, 110, 106, 97, 110, 101];
    HashOfJohnJane();
    assert TruncRem(-1429731143, 101) == -90;
  }

  // ---------------------------------------------------------------------
  // The message ladder and the submit button

  /** The four messages of `getResultMessage`, best match first. */
  datatype Message = PerfectMatch | GreatPotential | WorthATry | KeepLooking

  /** `getResultMessage`: the first threshold the score reaches wins. */
  function ResultMessage(score: int): (m: Message)
    ensures m == PerfectMatch <==> score >= 80
    ensures m == GreatPotential <==> 60 <= score < 80
    ensures m == WorthATry <==> 40 <= score < 60
    ensures m == KeepLooking <==> score < 40
  {
    if score >= 80 then PerfectMatch
    else if score >= 60 then GreatPotential
    else if score >= 40 then WorthATry
    else KeepLooking
  }

  /** How many of the thresholds 40, 60 and 80 a message stands for. */
  function Rank(m: Message): nat {
    match m
    case KeepLooking => 0
    case WorthATry => 1
    case GreatPotential => 2
    case PerfectMatch => 3
  }

  /** A higher score never gets a worse message. */
  lemma ResultMessageMonotone(s: int, t: int)
    requires s <= t
    ensures Rank(ResultMessage(s)) <= Rank(ResultMessage(t))
  {
  }

  /** The "Calculate Love" button is enabled when both names are non-empty
      and no calculation is in flight. */
  predicate CanSubmit(name1: seq<CodeUnit>, name2: seq<CodeUnit>, isCalculating: bool) {
    name1 != [] && name2 != [] && !isCalculating
  }

  /** Whenever the button is enabled a click computes a score; and the
      button is disabled exactly when a click would return early or a
      calculation is already running. */
  lemma SubmitComputesScore(name1: seq<CodeUnit>, name2: seq<CodeUnit>, isCalculating: bool)
    ensures CanSubmit(name1, name2, isCalculating)
        <==> !isCalculating && Calculate(name1, name2).Some?
    ensures CanSubmit(name1, name2, isCalculating)
        ==> 0 <= Calculate(name1, name2).value <= 100
  {
  }
}
