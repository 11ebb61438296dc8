/**
  The pure helpers of helpers.py: the filename sanitiser, the ETA formatter
  and the unit choice of the byte formatter. Directory validation and the
  progress renderer are not part of this model.
 */
module Helpers {

  import opened Wrappers
  import opened Text

  // ---------------------------------------------------------------------
  // create_safe_filename
  // ---------------------------------------------------------------------

  /** The longest file name `CreateSafeFilename` produces. */
  const MaxFilenameLength: nat := 100

  /** The characters of the regular-expression class `[<>:"/\\|?*]`. */
  predicate IsForbidden(c: char)
  {
    c == '<' || c == '>' || c == ':' || c == '"' || c == '/'
    || c == '\\' || c == '|' || c == '?' || c == '*'
  }

  /** What replacing every space with an underscore does to one character. */
  function Underscored(c: char): char
  {
    if c == ' ' then '_' else c
  }

  /** A name the sanitiser leaves as it is. */
  predicate IsSafeFilename(name: string)
  {
    && |name| <= MaxFilenameLength
    && forall i :: 0 <= i < |name| ==> !IsForbidden(name[i]) && name[i] != ' '
  }

  /** Deleting every match of the forbidden class, keeping the rest in order. */
  function RemoveForbidden(s: string): (r: string)
    ensures |r| <= |s|
    ensures forall i :: 0 <= i < |r| ==> !IsForbidden(r[i])
  {
    if s == [] then []
    else (if IsForbidden(s[0]) then [] else [s[0]]) + RemoveForbidden(s[1..])
  }

  /** Deletion works piece by piece: it distributes over concatenation. */
  lemma {:induction false} RemoveForbiddenAppend(a: string, b: string)
    ensures RemoveForbidden(a + b) == RemoveForbidden(a) + RemoveForbidden(b)
  {
    if a == [] {
      assert a + b == b;
    } else {
      assert (a + b)[0] == a[0] && (a + b)[1..] == a[1..] + b;
      RemoveForbiddenAppend(a[1..], b);
    }
  }

  /** A character survives deletion exactly when it occurs and is allowed. */
  lemma {:induction false} RemoveForbiddenMembers(s: string, c: char)
    ensures c in RemoveForbidden(s) <==> c in s && !IsForbidden(c)
  {
    if s != [] {
      RemoveForbiddenMembers(s[1..], c);
      assert s == [s[0]] + s[1..];
    }
  }

  /** Deletion changes nothing exactly when nothing is forbidden. */
  lemma {:induction false} RemoveForbiddenIdentity(s: string)
    ensures RemoveForbidden(s) == s <==> forall i :: 0 <= i < |s| ==> !IsForbidden(s[i])
  {
    if s != [] {
      RemoveForbiddenIdentity(s[1..]);
      if IsForbidden(s[0]) {
        assert |RemoveForbidden(s)| < |s|;
      } else if forall i :: 0 <= i < |s| ==> !IsForbidden(s[i]) {
        assert forall i :: 0 <= i < |s[1..]| ==> !IsForbidden(s[1..][i]);
      }
    }
  }

  /** `str.replace(' ', '_')`: same length, each space becomes `_` in place. */
  function ReplaceSpaces(s: string): (r: string)
    ensures |r| == |s|
    ensures forall i :: 0 <= i < |s| ==> r[i] == Underscored(s[i])
  {
    if s == [] then [] else [Underscored(s[0])] + ReplaceSpaces(s[1..])
  }

  /**
    `create_safe_filename(title)`: the title with the forbidden characters
    deleted, spaces turned into underscores, cut to 100 characters.
   */
  function CreateSafeFilename(title: string): (r: string)
    ensures |r| <= MaxFilenameLength && |r| <= |title|
    ensures forall i :: 0 <= i < |r| ==> !IsForbidden(r[i]) && r[i] != ' '
    ensures var kept := RemoveForbidden(title);
            && |r| == (if |kept| <= MaxFilenameLength then |kept| else MaxFilenameLength)
            && forall i :: 0 <= i < |r| ==> r[i] == Underscored(kept[i])
  {
    var filename := RemoveForbidden(title);
    var filename := ReplaceSpaces(filename);
    if |filename| <= MaxFilenameLength then filename else filename[..MaxFilenameLength]
  }

  /** A name is returned unchanged exactly when it is already safe. */
  lemma CreateSafeFilenameFixpoint(name: string)
    ensures CreateSafeFilename(name) == name <==> IsSafeFilename(name)
  {
    if IsSafeFilename(name) {
      RemoveForbiddenIdentity(name);
      assert ReplaceSpaces(name) == name;
    }
  }

  /** Sanitising twice is sanitising once. */
  lemma CreateSafeFilenameIdempotent(title: string)
    ensures CreateSafeFilename(CreateSafeFilename(title)) == CreateSafeFilename(title)
  {
    CreateSafeFilenameFixpoint(CreateSafeFilename(title));
  }

  /** Forbidden characters are deleted, not replaced. */
  lemma CreateSafeFilenameSample()
    ensures CreateSafeFilename("a:b/c*d") == "abcd"
  {
  }

  // ---------------------------------------------------------------------
  // format_time
  // ---------------------------------------------------------------------

  /** What an unknown (negative) ETA is shown as. */
  const UnknownEta: string := "--:--:--"

  /** Hours, minutes and seconds of a non-negative duration. */
  function SplitDuration(seconds: nat): (hms: (nat, nat, nat))
    ensures hms.0 * 3600 + hms.1 * 60 + hms.2 == seconds
    ensures hms.1 < 60 && hms.2 < 60
  {
    (seconds / 3600, (seconds % 3600) / 60, seconds % 60)
  }

  /** The decomposition is the only one with minutes and seconds below 60. */
  lemma SplitDurationUnique(seconds: nat, h: nat, m: nat, s: nat)
    requires h * 3600 + m * 60 + s == seconds && m < 60 && s < 60
    ensures SplitDuration(seconds) == (h, m, s)
  {
  }

  /** `f"{n:02d}"`: the digits of `n`, padded with zeros to at least two. */
  function Pad2(n: nat): (r: string)
    ensures AllDigits(r) && DecimalValue(r) == n
    ensures n < 100 ==> |r| == 2
    ensures n >= 100 ==> |r| >= 3 && r[0] != '0'
  {
    var d := Digits(n);
    DecimalRoundTrip(n);
    if |d| < 2 then (LeadingZero(d); "0" + d) else d
  }

  /**
    `format_time(seconds)`: `--:--:--` for a negative count, else `h:mm:ss`
    where minutes and seconds take two digits and the hours at least two
    (they are never cut, so 100 hours and more make a longer string).
   */
  function FormatTime(seconds: int): (r: string)
    ensures seconds < 0 ==> r == UnknownEta
    ensures seconds >= 0 ==> |r| >= 8 && r[|r| - 6] == ':' && r[|r| - 3] == ':'
    ensures 0 <= seconds < 360000 ==> |r| == 8 && r[2] == ':' && r[5] == ':'
    ensures seconds >= 360000 ==> |r| > 8 && r[0] != '0'
  {
    if seconds < 0 then UnknownEta
    else
      var (h, m, s) := SplitDuration(seconds);
      Pad2(h) + ":" + Pad2(m) + ":" + Pad2(s)
  }

  /**
    Reads an `h:mm:ss` string back into its three fields; `None` for anything
    else, the placeholder included. It is the inverse of `FormatTime`.
   */
  function ParseClock(r: string): Option<(nat, nat, nat)>
  {
    if |r| < 8 || r[|r| - 6] != ':' || r[|r| - 3] != ':' then None
    else
      var hh, mm, ss := r[..|r| - 6], r[|r| - 5..|r| - 3], r[|r| - 2..];
      if AllDigits(hh) && AllDigits(mm) && AllDigits(ss)
      then Some((DecimalValue(hh), DecimalValue(mm), DecimalValue(ss)))
      else None
  }

  /**
    The fields written by `FormatTime` are exactly the hours, minutes and
    seconds of the count (so nothing is truncated), and the placeholder
    carries none.
   */
  lemma FormatTimeRoundTrip(seconds: int)
    ensures seconds < 0 ==> ParseClock(FormatTime(seconds)) == None
    ensures seconds >= 0 ==> ParseClock(FormatTime(seconds)) == Some(SplitDuration(seconds))
  {
    var r := FormatTime(seconds);
    if seconds < 0 {
      assert !IsDigit(r[..2][0]);
    } else {
      var (h, m, s) := SplitDuration(seconds);
      var hh, mm, ss := Pad2(h), Pad2(m), Pad2(s);
      assert r == hh + ":" + mm + ":" + ss;
      assert r[..|r| - 6] == hh;
      assert r[|r| - 5..|r| - 3] == mm;
      assert r[|r| - 2..] == ss;
    }
  }

  /** The placeholder, midnight and one hour, one minute and one second. */
  lemma FormatTimeSamples()
    ensures FormatTime(-1) == UnknownEta
    ensures FormatTime(0) == "00:00:00"
    ensures FormatTime(3661) == "01:01:01"
  {
  }

  // ---------------------------------------------------------------------
  // format_bytes (unit choice only)
  // ---------------------------------------------------------------------

  datatype ByteUnit = B | KB | MB | GB | TB

  /** The position of a unit in the scale: B is 0, TB is 4. */
  function Rank(u: ByteUnit): nat
  {
    match u
    case B => 0
    case KB => 1
    case MB => 2
    case GB => 3
    case TB => 4
  }

  /** The units the loop tries in turn before it falls through to TB. */
  const SteppedUnits: seq<ByteUnit> := [B, KB, MB, GB]

  function Pow1024(k: nat): (p: nat)
    ensures p >= 1
  {
    if k == 0 then 1 else 1024 * Pow1024(k - 1)
  }

  /**
    The unit rank for a count: the first `k` below 4 whose next power
    `1024^(k+1)` is above `n`, starting the search at `k`; 4 (TB) when none is.
   */
  function FirstFit(n: int, k: nat): (rank: nat)
    requires k <= 4
    ensures k <= rank <= 4
    decreases 4 - k
  {
    if k == 4 || n < Pow1024(k + 1) then k else FirstFit(n, k + 1)
  }

  function UnitIndex(n: int): (rank: nat)
    ensures rank <= 4
  {
    FirstFit(n, 0)
  }

  /**
    The unit is the one whose range holds the count: rank `k` exactly when
    `1024^k <= n < 1024^(k+1)`, with no lower bound for B and no upper bound
    for TB.
   */
  lemma UnitIndexBounds(n: int, k: nat)
    requires k <= 4
    ensures UnitIndex(n) == k <==> (k == 0 || Pow1024(k) <= n) && (k == 4 || n < Pow1024(k + 1))
  {
  }

  /** The same statement with the thresholds written out, unit by unit. */
  lemma UnitIndexRanges(n: int)
    ensures UnitIndex(n) == 0 <==> n < 1024
    ensures UnitIndex(n) == 1 <==> 1024 <= n < 1024 * 1024
    ensures UnitIndex(n) == 2 <==> 1024 * 1024 <= n < 1024 * 1024 * 1024
    ensures UnitIndex(n) == 3 <==> 1024 * 1024 * 1024 <= n < 1024 * 1024 * 1024 * 1024
    ensures UnitIndex(n) == 4 <==> 1024 * 1024 * 1024 * 1024 <= n
  {
  }

  /** A larger count never gets a smaller unit. */
  lemma UnitIndexMonotone(a: int, b: int)
    requires a <= b
    ensures UnitIndex(a) <= UnitIndex(b)
  {
  }

  /**
    The unit choice of `format_bytes(bytes_count)` for an integer count: the
    value is divided by 1024 once per unit passed, and the loop stops at the
    first unit where it is below 1024. Returns the scaled value and the unit
    it is printed with.
   */
  method SelectUnit(bytesCount: int) returns (value: real, unit: ByteUnit)
    ensures Rank(unit) == UnitIndex(bytesCount)
    ensures value * (Pow1024(Rank(unit)) as real) == bytesCount as real
    ensures unit != TB ==> value < 1024.0
    ensures unit != B ==> value >= 1.0
  {
    value := bytesCount as real;
    var k := 0;
    while k < |SteppedUnits|
      invariant 0 <= k <= |SteppedUnits|
      invariant value * (Pow1024(k) as real) == bytesCount as real
      invariant UnitIndex(bytesCount) >= k
      invariant k > 0 ==> value >= 1.0
    {
      unit := SteppedUnits[k];
      if value < 1024.0 {
        UnitIndexBounds(bytesCount, k);
        assert bytesCount < Pow1024(k + 1);
        return;
      }
      UnitIndexBounds(bytesCount, k);
      value := value / 1024.0;
      k := k + 1;
    }
    unit := TB;
  }
}
