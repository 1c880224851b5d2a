/**
 * Level selection and unlocking (Assets/Scripts/Level/CurrentLevelManager.cs).
 * The level number comes from the resource path by two `string.Replace(old, "")` calls
 * and `int.Parse`; completing a level raises the "max unlocked" counter. The path
 * constants are those of Assets/Scripts/Path/FilePathManager.cs. C# `int` is 32 bits and
 * the increment in `CompleteLevel` is unchecked, so it wraps at `Int32.MaxValue`.
 */
module Progression {
  import opened Wrappers
  import opened GameStates

  const MinInt32: int := -0x8000_0000
  const MaxInt32: int := 0x7fff_ffff

  type Int32 = x: int | MinInt32 <= x <= MaxInt32

  /** `FilePathManager.Json` and `FilePathManager.LevelsLevel`. */
  const JsonSuffix: string := ".json"
  const LevelsPrefix: string := "Levels/level"

  // ---------------------------------------------------------------- string.Replace

  /** `s.Replace(pat, "")`: deletes every occurrence of `pat`, scanning left to right without rescanning. */
  function RemoveAll(s: string, pat: string): (r: string)
    requires |pat| > 0
    ensures |r| <= |s|
    ensures forall c :: c in r ==> c in s
    ensures pat[0] !in s ==> r == s
    decreases |s|
  {
    if |s| < |pat| then s
    else if s[..|pat|] == pat then RemoveAll(s[|pat|..], pat)
    else
      var rest := RemoveAll(s[1..], pat);
      assert s == [s[0]] + s[1..];
      [s[0]] + rest
  }

  /** An occurrence at the front is deleted and the scan goes on after it. */
  lemma RemoveAllLeading(pat: string, t: string)
    requires |pat| > 0
    ensures RemoveAll(pat + t, pat) == RemoveAll(t, pat)
  {
    assert (pat + t)[..|pat|] == pat;
    assert (pat + t)[|pat|..] == t;
  }

  // ---------------------------------------------------------------- int.Parse

  /** The white space `NumberStyles.Integer` allows around the number (U+0009 to U+000D and U+0020). */
  predicate IsWhite(c: char) {
    c == ' ' || '\t' <= c <= '\r'
  }

  predicate IsDigit(c: char) {
    '0' <= c <= '9'
  }

  predicate AllDigits(s: string) {
    forall i :: 0 <= i < |s| ==> IsDigit(s[i])
  }

  /** `s` without its leading and trailing white space. */
  function TrimWhite(s: string): (r: string)
    ensures forall i :: 0 <= i < |s| && !IsWhite(s[i]) ==> s[i] in r
    ensures forall c :: c in r ==> c in s
    decreases |s|
  {
    if |s| > 0 && IsWhite(s[0]) then TrimWhite(s[1..])
    else if |s| > 0 && IsWhite(s[|s| - 1]) then TrimWhite(s[..|s| - 1])
    else s
  }

  /** The value of a string of decimal digits. */
  function DigitsValue(s: string): nat
    requires AllDigits(s)
  {
    if s == [] then 0 else 10 * DigitsValue(s[..|s| - 1]) + (s[|s| - 1] - '0') as int
  }

  /** A trimmed number without its leading sign, if any. */
  function Unsigned(t: string): (digits: string)
    ensures |t| > 0 && (t[0] == '-' || t[0] == '+') ==> [t[0]] + digits == t
    ensures !(|t| > 0 && (t[0] == '-' || t[0] == '+')) ==> digits == t
  {
    if |t| > 0 && (t[0] == '-' || t[0] == '+') then t[1..] else t
  }

  /** `int.Parse` on a string without surrounding white space. */
  function ParseTrimmed(t: string): Option<Int32> {
    var digits := Unsigned(t);
    if |digits| == 0 || !AllDigits(digits) then None
    else
      var v: int := if |t| > 0 && t[0] == '-' then 0 - DigitsValue(digits) else DigitsValue(digits);
      if MinInt32 <= v <= MaxInt32 then Some(v) else None
  }

  /**
   * `s` without its trailing U+0000 characters: .NET's number parser accepts any run of
   * them after the number and its trailing white space.
   */
  function StripTrailingNuls(s: string): (r: string)
    ensures |r| <= |s| && r == s[..|r|]
    ensures |r| == 0 || r[|r| - 1] != '\0'
    decreases |s|
  {
    if |s| > 0 && s[|s| - 1] == '\0' then StripTrailingNuls(s[..|s| - 1]) else s
  }

  /** What `StripTrailingNuls` cuts off is U+0000 and nothing else. */
  lemma {:induction false} StripTrailingNulsCutsOnlyNuls(s: string, i: nat)
    requires |StripTrailingNuls(s)| <= i < |s|
    ensures s[i] == '\0'
    decreases |s|
  {
    if i < |s| - 1 {
      StripTrailingNulsCutsOnlyNuls(s[..|s| - 1], i);
    }
  }

  /** `int.Parse(s)`: `None` stands for the `FormatException` or `OverflowException` it throws. */
  function ParseInt(s: string): Option<Int32> {
    ParseTrimmed(TrimWhite(StripTrailingNuls(s)))
  }

  /** A trailing U+0000 does not change what `int.Parse` reads. */
  lemma ParseIgnoresTrailingNul(s: string)
    ensures ParseInt(s + "\0") == ParseInt(s)
  {
    assert (s + "\0")[..|s|] == s;
  }

  /** Only digits, signs, white space and U+0000 can make up a number `int.Parse` accepts. */
  lemma ParseIntRejectsOtherCharacters(s: string, i: nat)
    requires i < |s| && !IsDigit(s[i]) && !IsWhite(s[i]) && s[i] != '-' && s[i] != '+' && s[i] != '\0'
    ensures ParseInt(s) == None
  {
    var u := StripTrailingNuls(s);
    if |u| <= i {
      StripTrailingNulsCutsOnlyNuls(s, i);
    }
    assert u[i] == s[i];
    var t := TrimWhite(u);
    assert s[i] in t;
    assert s[i] in Unsigned(t);
  }

  // ---------------------------------------------------------------- int formatting

  function DigitChar(d: nat): char
    requires d < 10
  {
    ('0' as int + d) as char
  }

  /** Decimal digits of `n`, as C# formats a non-negative `int`. */
  function NatToString(n: nat): (r: string)
    ensures |r| > 0 && AllDigits(r)
  {
    if n < 10 then [DigitChar(n)] else NatToString(n / 10) + [DigitChar(n % 10)]
  }

  /** `$"{n}"` for a C# `int`. */
  function IntToString(n: Int32): string {
    if n < 0 then "-" + NatToString(0 - n as int) else NatToString(n)
  }

  lemma {:induction false} DigitsOfNatToString(n: nat)
    ensures DigitsValue(NatToString(n)) == n
  {
    if n >= 10 {
      DigitsOfNatToString(n / 10);
      var s := NatToString(n);
      assert s[..|s| - 1] == NatToString(n / 10);
    }
  }

  /** A string with no white space at either end is its own trim. */
  lemma TrimWhiteUntrimmed(s: string)
    requires |s| > 0 && !IsWhite(s[0]) && !IsWhite(s[|s| - 1])
    ensures TrimWhite(s) == s
  {
  }

  /** A string that starts and ends with neither white space nor U+0000 reaches the parser whole. */
  lemma ParseIntUntrimmed(s: string)
    requires |s| > 0 && !IsWhite(s[0]) && !IsWhite(s[|s| - 1]) && s[|s| - 1] != '\0'
    ensures ParseInt(s) == ParseTrimmed(s)
  {
    TrimWhiteUntrimmed(s);
  }

  /** Unsigned digits parse to their value when it fits in 32 bits. */
  lemma ParseDigits(digits: string)
    requires |digits| > 0 && AllDigits(digits) && DigitsValue(digits) <= MaxInt32
    ensures ParseInt(digits) == Some(DigitsValue(digits))
  {
    ParseIntUntrimmed(digits);
    assert Unsigned(digits) == digits;
  }

  lemma ParseTrimmedNegative(t: string, digits: string)
    requires |digits| > 0 && AllDigits(digits) && MinInt32 <= 0 - DigitsValue(digits)
    requires |t| > 1 && t[0] == '-' && t[1..] == digits
    ensures ParseTrimmed(t) == Some(0 - DigitsValue(digits))
  {
  }

  /** A minus sign followed by digits parses to the negated value when it fits in 32 bits. */
  lemma ParseNegatedDigits(digits: string)
    requires |digits| > 0 && AllDigits(digits) && MinInt32 <= 0 - DigitsValue(digits)
    ensures ParseInt("-" + digits) == Some(0 - DigitsValue(digits))
  {
    var s := "-" + digits;
    assert s[1..] == digits && s[|s| - 1] == digits[|digits| - 1];
    ParseIntUntrimmed(s);
    ParseTrimmedNegative(s, digits);
  }

  /** `int.Parse` reads back what C# formats. */
  lemma ParseFormattedInt(n: Int32)
    ensures ParseInt(IntToString(n)) == Some(n)
  {
    if n < 0 {
      var m: nat := 0 - n as int;
      var digits := NatToString(m);
      assert IntToString(n) == "-" + digits;
      DigitsOfNatToString(m);
      ParseNegatedDigits(digits);
    } else {
      var digits := NatToString(n);
      assert IntToString(n) == digits;
      DigitsOfNatToString(n);
      ParseDigits(digits);
    }
  }

  // ---------------------------------------------------------------- SetCurrentLevel

  /** The path `SetCurrentLevel` stores: the resource path with ".json" removed. */
  function LevelPath(jsonPath: string): string {
    RemoveAll(jsonPath, JsonSuffix)
  }

  /** The level number `SetCurrentLevel` parses from a stored path; `None` when `int.Parse` throws. */
  function LevelNumberOf(path: string): Option<Int32> {
    ParseInt(RemoveAll(path, LevelsPrefix))
  }

  /** The path a level button builds, "Levels/level" followed by the level number. */
  function ButtonPath(n: Int32): string {
    LevelsPrefix + IntToString(n)
  }

  /** Selecting a level through its button yields that level's number. */
  lemma ButtonPathRoundTrip(n: Int32)
    ensures LevelPath(ButtonPath(n)) == ButtonPath(n)
    ensures LevelNumberOf(LevelPath(ButtonPath(n))) == Some(n)
  {
    var digits := IntToString(n);
    assert '.' !in digits && 'L' !in digits by {
      if n < 0 { assert digits == ['-'] + NatToString(0 - n as int); }
    }
    assert '.' !in ButtonPath(n) by {
      assert forall i :: 0 <= i < |LevelsPrefix| ==> LevelsPrefix[i] != '.';
    }
    RemoveAllLeading(LevelsPrefix, digits);
    ParseFormattedInt(n);
  }

  /** A remainder with a character that cannot be part of a number makes the parse fail. */
  lemma LevelNumberRejectsNonNumbers(path: string, i: nat)
    requires var rest := RemoveAll(path, LevelsPrefix);
      i < |rest| && !IsDigit(rest[i]) && !IsWhite(rest[i]) && rest[i] != '-' && rest[i] != '+' && rest[i] != '\0'
    ensures LevelNumberOf(path) == None
  {
    ParseIntRejectsOtherCharacters(RemoveAll(path, LevelsPrefix), i);
  }

  // ---------------------------------------------------------------- CompleteLevel

  /** `levelNumber + 1` in unchecked 32-bit arithmetic. */
  function Int32Successor(n: Int32): Int32 {
    if n == MaxInt32 then MinInt32 else n + 1
  }

  /** The counter after `CompleteLevel(n)`. */
  function Completed(maxUnlocked: Int32, n: Int32): Int32 {
    if n >= maxUnlocked then Int32Successor(n) else maxUnlocked
  }

  /** Completing a level never lowers the counter and unlocks the next one, short of `Int32.MaxValue`. */
  lemma CompletedUnlocksNext(maxUnlocked: Int32, n: Int32)
    requires n < MaxInt32
    ensures Completed(maxUnlocked, n) >= maxUnlocked
    ensures Completed(maxUnlocked, n) > n
    ensures n < maxUnlocked ==> Completed(maxUnlocked, n) == maxUnlocked
  {
  }

  /** Completing the same level twice is the same as completing it once. */
  lemma CompletedIdempotent(maxUnlocked: Int32, n: Int32)
    ensures Completed(Completed(maxUnlocked, n), n) == Completed(maxUnlocked, n)
  {
  }

  /** At `Int32.MaxValue` the unchecked increment wraps and the counter drops to `Int32.MinValue`. */
  lemma CompletedWrapsAtMaxInt(maxUnlocked: Int32)
    ensures Completed(maxUnlocked, MaxInt32) == MinInt32
  {
  }

  /** The level-progress observer: the chosen level and the unlock counter. */
  class CurrentLevelManager {
    var currentJsonPath: Option<string>
    var maxUnlockedLevel: Int32
    var currentLevelNumber: Int32
    /** The value last written to `PlayerPrefs` under "MaxUnlockedLevel"; `None` if never written. */
    var savedMaxUnlockedLevel: Option<Int32>

    constructor(saved: Option<Int32>)
      ensures currentJsonPath == None && maxUnlockedLevel == 1 && currentLevelNumber == 0
      ensures savedMaxUnlockedLevel == saved
    {
      currentJsonPath := None;
      maxUnlockedLevel := 1;
      currentLevelNumber := 0;
      savedMaxUnlockedLevel := saved;
    }

    /** `Start`: seed the stored counter with 1 when absent, then load it. */
    method Start()
      modifies this`maxUnlockedLevel, this`savedMaxUnlockedLevel
      ensures savedMaxUnlockedLevel == Some(if old(savedMaxUnlockedLevel).Some? then old(savedMaxUnlockedLevel).value else 1)
      ensures maxUnlockedLevel == savedMaxUnlockedLevel.value
    {
      if savedMaxUnlockedLevel.None? {
        savedMaxUnlockedLevel := Some(1);
      }
      maxUnlockedLevel := savedMaxUnlockedLevel.value;
    }

    /**
     * `SetCurrentLevel`: the path is stored before the parse, so when `int.Parse` throws
     * (`ok` false) the new path is kept and the level number is left as it was.
     */
    method SetCurrentLevel(jsonPath: string) returns (ok: bool)
      modifies this`currentJsonPath, this`currentLevelNumber
      ensures currentJsonPath == Some(LevelPath(jsonPath))
      ensures ok <==> LevelNumberOf(LevelPath(jsonPath)).Some?
      ensures ok ==> currentLevelNumber == LevelNumberOf(LevelPath(jsonPath)).value
      ensures !ok ==> currentLevelNumber == old(currentLevelNumber)
    {
      var path := RemoveAll(jsonPath, JsonSuffix);
      currentJsonPath := Some(path);
      var parsed := ParseInt(RemoveAll(path, LevelsPrefix));
      ok := parsed.Some?;
      if ok {
        currentLevelNumber := parsed.value;
      }
    }

    /** `CompleteLevel`: raise the counter past `levelNumber` and save it, when it is not already past. */
    method CompleteLevel(levelNumber: Int32)
      modifies this`maxUnlockedLevel, this`savedMaxUnlockedLevel
      ensures maxUnlockedLevel == Completed(old(maxUnlockedLevel), levelNumber)
      ensures savedMaxUnlockedLevel ==
        if levelNumber >= old(maxUnlockedLevel) then Some(maxUnlockedLevel) else old(savedMaxUnlockedLevel)
    {
      if levelNumber >= maxUnlockedLevel {
        maxUnlockedLevel := Int32Successor(levelNumber);
        savedMaxUnlockedLevel := Some(maxUnlockedLevel);
      }
    }

    /** `OnGameStateChanged`: only `Finished` completes the current level. */
    method OnGameStateChanged(newState: GameState)
      modifies this`maxUnlockedLevel, this`savedMaxUnlockedLevel
      ensures newState == Finished ==> maxUnlockedLevel == Completed(old(maxUnlockedLevel), currentLevelNumber)
      ensures newState == Finished && currentLevelNumber >= old(maxUnlockedLevel) ==>
        savedMaxUnlockedLevel == Some(maxUnlockedLevel)
      ensures newState != Finished || currentLevelNumber < old(maxUnlockedLevel) ==>
        maxUnlockedLevel == old(maxUnlockedLevel) && savedMaxUnlockedLevel == old(savedMaxUnlockedLevel)
    {
      if newState == Finished {
        CompleteLevel(currentLevelNumber);
      }
    }
  }
}
