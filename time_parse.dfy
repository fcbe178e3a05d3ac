/** The time-expression parser that `handle_text` runs on every incoming message
    (main.py:257-276, repeated verbatim at 294-313 and 338-357).

    Time is integer seconds on a naive local clock; `now` is a parameter and "today"
    is the start of the day holding `now`. The two regular expressions are modelled as
    scanners over ASCII digits that read the text from a position on:
    `в (\d{1,2}):(\d{2})` ("at H:MM") and `через (\d+) минут` ("in N minutes");
    the word `завтра` ("tomorrow") is a plain substring test. */
module TimeParse {
  import opened Wrappers
  import opened Text

  const SecondsPerDay: int := 86400
  const ClockHead: string := "в "
  const MinutesHead: string := "через "
  const MinutesTail: string := " минут"
  const Tomorrow: string := "завтра"
  /** The optional group `( завтра)?` that `re.sub` removes together with the clock. */
  const TomorrowQualifier: string := " завтра"

  /* ---------- digits at a position ---------- */

  predicate DigitsIn(s: string, lo: nat, hi: nat) {
    lo <= hi <= |s| && forall i :: lo <= i < hi ==> IsDigit(s[i])
  }

  /** `int()` of the digits `s[lo..hi]`. */
  function NumberIn(s: string, lo: nat, hi: nat): nat
    requires DigitsIn(s, lo, hi)
  {
    DigitsValue(s[lo..hi])
  }

  /** Length of the run of digits from position `k`: what a greedy `\d+` takes there. */
  function DigitRunAt(s: string, k: nat): (n: nat)
    ensures DigitsIn(s, k, k + n) || (n == 0 && k > |s|)
    ensures k + n < |s| ==> !IsDigit(s[k + n])
    decreases |s| - k
  {
    if k < |s| && IsDigit(s[k]) then 1 + DigitRunAt(s, k + 1) else 0
  }

  lemma {:induction false} DigitRunUnique(s: string, k: nat, n: nat)
    requires DigitsIn(s, k, k + n) && (k + n < |s| ==> !IsDigit(s[k + n]))
    ensures DigitRunAt(s, k) == n
    decreases n
  {
    if n > 0 {
      DigitRunUnique(s, k + 1, n - 1);
    }
  }

  /* ---------- the two phrases, declaratively ---------- */

  /** `s[k..k+n]` is exactly a clock phrase `в H:MM`: one or two hour digits, a colon,
      two minute digits. */
  predicate ClockPhraseAt(s: string, k: nat, n: nat) {
    && (n == 6 || n == 7) && k + n <= |s|
    && HasAt(s, k, ClockHead)
    && DigitsIn(s, k + 2, k + n - 3)
    && s[k + n - 3] == ':'
    && DigitsIn(s, k + n - 2, k + n)
  }

  function PhraseHour(s: string, k: nat, n: nat): nat
    requires ClockPhraseAt(s, k, n)
  {
    NumberIn(s, k + 2, k + n - 3)
  }

  function PhraseMinute(s: string, k: nat, n: nat): nat
    requires ClockPhraseAt(s, k, n)
  {
    NumberIn(s, k + n - 2, k + n)
  }

  /** `s[k..k+n]` is exactly a phrase `через N минут` with at least one digit. */
  predicate MinutesPhraseAt(s: string, k: nat, n: nat) {
    && n > 12 && k + n <= |s|
    && HasAt(s, k, MinutesHead)
    && DigitsIn(s, k + 6, k + n - 6)
    && HasAt(s, k + n - 6, MinutesTail)
  }

  function PhraseMinutes(s: string, k: nat, n: nat): nat
    requires MinutesPhraseAt(s, k, n)
  {
    NumberIn(s, k + 6, k + n - 6)
  }

  /** No clock phrase starts before position `k` of `s`. */
  ghost predicate NoClockBefore(s: string, k: nat) {
    forall j: nat, n: nat | j < k :: !ClockPhraseAt(s, j, n)
  }

  /** No minutes phrase starts before position `k` of `s`. */
  ghost predicate NoMinutesBefore(s: string, k: nat) {
    forall j: nat, n: nat | j < k :: !MinutesPhraseAt(s, j, n)
  }

  /* ---------- the scanners ---------- */

  /** Length of the match of `в \d{1,2}:\d{2}` at position `k` of `s`, 0 if there is
      none. Backtracking never helps `\d{1,2}`: with a digit after the first hour digit
      only the two-digit reading can reach the colon, and without one only the one-digit. */
  function ClockLenAt(s: string, k: nat): (n: nat)
    ensures n == 0 || ((n == 6 || n == 7) && k + n <= |s|)
  {
    if HasAt(s, k, ClockHead) then
      var h := DigitRunAt(s, k + 2);
      if (h == 1 || h == 2) && k + h + 5 <= |s| && s[k + h + 2] == ':'
         && IsDigit(s[k + h + 3]) && IsDigit(s[k + h + 4])
      then h + 5
      else 0
    else 0
  }

  /** Length of the match of `через \d+ минут` at position `k` of `s`, 0 if there is
      none. The greedy `\d+` must stop at the space, so it takes the whole digit run. */
  function MinutesLenAt(s: string, k: nat): (n: nat)
    ensures n == 0 || (n > 12 && k + n <= |s|)
  {
    if HasAt(s, k, MinutesHead) then
      var d := DigitRunAt(s, k + 6);
      if d > 0 && HasAt(s, k + 6 + d, MinutesTail) then d + 12 else 0
    else 0
  }

  /** The clock scanner recognises exactly the clock phrases, in both directions. */
  lemma ClockLenIsPhrase(s: string, k: nat, n: nat)
    ensures (n > 0 && ClockLenAt(s, k) == n) <==> ClockPhraseAt(s, k, n)
  {
    if ClockPhraseAt(s, k, n) {
      DigitRunUnique(s, k + 2, n - 5);
    }
  }

  /** The minutes scanner recognises exactly the minutes phrases, in both directions. */
  lemma MinutesLenIsPhrase(s: string, k: nat, n: nat)
    ensures (n > 0 && MinutesLenAt(s, k) == n) <==> MinutesPhraseAt(s, k, n)
  {
    if MinutesPhraseAt(s, k, n) {
      assert s[k + n - 6] == MinutesTail[0];
      DigitRunUnique(s, k + 6, n - 12);
    }
  }

  /* ---------- re.search and re.sub ---------- */

  /** The three patterns the handler uses: the clock as searched, the clock as removed
      (with its optional ` завтра`), and the minutes phrase (searched and removed alike). */
  datatype Pattern = Clock | ClockWithTomorrow | Minutes

  /** Length of the match of `p` at position `k` of `s`, 0 if there is none. */
  function MatchAt(p: Pattern, s: string, k: nat): (n: nat)
    ensures n == 0 || k + n <= |s|
  {
    match p
    case Clock => ClockLenAt(s, k)
    case ClockWithTomorrow =>
      var n := ClockLenAt(s, k);
      if n > 0 && HasAt(s, k + n, TomorrowQualifier) then n + |TomorrowQualifier| else n
    case Minutes => MinutesLenAt(s, k)
  }

  /** A compiled pattern: the length of its match at a position of a string, 0 when it
      does not match there. `re.search` and `re.sub` below work for any of them. */
  type Matcher = m: (string, nat) -> nat
    | forall s: string, k: nat :: m(s, k) == 0 || k + m(s, k) <= |s|
    witness (s: string, k: nat) => 0

  /** `re.compile`. */
  function Compile(p: Pattern): Matcher {
    (s, k) => MatchAt(p, s, k)
  }

  lemma CompiledIs(p: Pattern, s: string, k: nat)
    ensures Compile(p)(s, k) == MatchAt(p, s, k)
  {
  }

  /** `re.search` from position `j`: the leftmost position where `m` matches. */
  function Search(m: Matcher, s: string, j: nat): (r: Option<nat>)
    ensures r.Some? ==> j <= r.value < |s| && m(s, r.value) > 0
    ensures forall k :: j <= k < |s| && (r.None? || k < r.value) ==> m(s, k) == 0
    decreases |s| - j
  {
    if j >= |s| then None
    else if m(s, j) > 0 then Some(j)
    else Search(m, s, j + 1)
  }

  /** A match at `k` with none between `j` and `k` is what `re.search` reports. */
  lemma {:induction false} SearchFinds(m: Matcher, s: string, j: nat, k: nat)
    requires j <= k < |s| && m(s, k) > 0
    requires forall i :: j <= i < k ==> m(s, i) == 0
    ensures Search(m, s, j) == Some(k)
    decreases k - j
  {
    if j < k {
      SearchFinds(m, s, j + 1, k);
    }
  }

  /** `re.sub(pattern, '', s[j..])`: the non-overlapping matches, found left to right
      with the scan resuming after each one, are all deleted. */
  function Remove(m: Matcher, s: string, j: nat): string
    decreases |s| - j
  {
    if j >= |s| then []
    else
      var n := m(s, j);
      if n > 0 then Remove(m, s, j + n) else [s[j]] + Remove(m, s, j + 1)
  }

  lemma {:induction false} RemoveNoLonger(m: Matcher, s: string, j: nat)
    requires j <= |s|
    ensures |Remove(m, s, j)| <= |s| - j
    decreases |s| - j
  {
    if j < |s| {
      var n := m(s, j);
      if n > 0 { RemoveNoLonger(m, s, j + n); } else { RemoveNoLonger(m, s, j + 1); }
    }
  }

  /** `re.sub` keeps the text before the leftmost match, drops the match and carries on
      after it, so every later occurrence is removed too, not only the first. */
  lemma {:induction false} RemoveLeftmost(m: Matcher, s: string, j: nat, k: nat)
    requires j <= k < |s| && m(s, k) > 0
    requires forall i :: j <= i < k ==> m(s, i) == 0
    ensures Remove(m, s, j) == s[j..k] + Remove(m, s, k + m(s, k))
    decreases k - j
  {
    if j < k {
      var rest := Remove(m, s, k + m(s, k));
      calc {
        Remove(m, s, j);
        [s[j]] + Remove(m, s, j + 1);
        { RemoveLeftmost(m, s, j + 1, k); }
        [s[j]] + (s[j + 1..k] + rest);
        { SeqAppendAssoc([s[j]], s[j + 1..k], rest); }
        ([s[j]] + s[j + 1..k]) + rest;
        { assert [s[j]] + s[j + 1..k] == s[j..k]; }
        s[j..k] + rest;
      }
    }
  }

  /** Associativity of `+`, stated once so that the `calc` above names the one step the
      solver needs instead of searching for it. */
  lemma SeqAppendAssoc(a: string, b: string, c: string)
    ensures a + (b + c) == (a + b) + c
  {
  }

  /** What `re.search` finds, `re.sub` removes: the text gets strictly shorter. */
  lemma RemoveShrinks(m: Matcher, s: string, i: nat)
    requires Search(m, s, 0) == Some(i)
    ensures |Remove(m, s, 0)| < |s|
  {
    RemoveLeftmost(m, s, 0, i);
    RemoveNoLonger(m, s, i + m(s, i));
  }

  /** `re.sub` changes the text exactly when `re.search` finds the pattern. */
  lemma {:induction false} RemoveUnchangedIff(m: Matcher, s: string, j: nat)
    requires j <= |s|
    ensures Remove(m, s, j) == s[j..] <==> Search(m, s, j).None?
    decreases |s| - j
  {
    if j < |s| {
      if m(s, j) > 0 {
        RemoveAtMatch(m, s, j);
      } else {
        RemoveUnchangedIff(m, s, j + 1);
        RemoveAtMiss(m, s, j);
      }
    }
  }

  lemma RemoveAtMatch(m: Matcher, s: string, j: nat)
    requires j < |s| && m(s, j) > 0
    ensures Remove(m, s, j) != s[j..] && Search(m, s, j) == Some(j)
  {
    RemoveNoLonger(m, s, j + m(s, j));
    assert |Remove(m, s, j)| < |s[j..]|;
  }

  lemma RemoveAtMiss(m: Matcher, s: string, j: nat)
    requires j < |s| && m(s, j) == 0
    ensures Remove(m, s, j) == s[j..] <==> Remove(m, s, j + 1) == s[j + 1..]
    ensures Search(m, s, j) == Search(m, s, j + 1)
  {
    var rest := Remove(m, s, j + 1);
    assert Remove(m, s, j) == [s[j]] + rest;
    assert s[j..] == [s[j]] + s[j + 1..];
    if [s[j]] + rest == [s[j]] + s[j + 1..] {
      assert rest == ([s[j]] + rest)[1..];
    }
  }

  /** The optional ` завтра` group only lengthens a clock match: both patterns are found
      at the same place. */
  lemma {:induction false} SameSearchWithQualifier(s: string, j: nat)
    ensures Search(Compile(ClockWithTomorrow), s, j) == Search(Compile(Clock), s, j)
    decreases |s| - j
  {
    if j < |s| {
      CompiledIs(Clock, s, j);
      CompiledIs(ClockWithTomorrow, s, j);
      SameSearchWithQualifier(s, j + 1);
    }
  }

  /* ---------- the parse ---------- */

  /** What the three copies of the parse leave behind: the text to store and an optional
      reminder instant, or the `ValueError` that `now.replace(hour=…, minute=…)` raises
      when the clock phrase names an hour above 23 or a minute above 59. */
  datatype Outcome =
    | Parsed(text: string, reminder: Option<int>)
    | ClockOutOfRange(hour: nat, minute: nat)

  /** Start of the day that holds `now`. */
  function Today(now: int): int {
    now - now % SecondsPerDay
  }

  /** The clock branch (main.py:262-271): today at H:MM, one day later if `завтра`
      occurs anywhere in the text or if that instant is already past; the clock phrase,
      with a ` завтра` right after it, is cut out wherever it occurs. */
  function ClockBranch(text: string, i: nat, now: int): (r: Outcome)
    requires Search(Compile(Clock), text, 0) == Some(i)
    ensures r.ClockOutOfRange? ==> r.hour > 23 || r.minute > 59
    ensures r.Parsed? ==> r.reminder.Some? && |r.text| < |text| && NoOuterSpace(r.text)
  {
    var n := ClockLenAt(text, i);
    ClockLenIsPhrase(text, i, n);
    var hour := PhraseHour(text, i, n);
    var minute := PhraseMinute(text, i, n);
    if hour > 23 || minute > 59 then ClockOutOfRange(hour, minute)
    else
      var at := Today(now) + hour * 3600 + minute * 60;
      var due := if Contains(text, Tomorrow) then at + SecondsPerDay
                 else if at < now then at + SecondsPerDay
                 else at;
      SameSearchWithQualifier(text, 0);
      RemoveShrinks(Compile(ClockWithTomorrow), text, i);
      Parsed(Strip(Remove(Compile(ClockWithTomorrow), text, 0)), Some(due))
  }

  /** The minutes branch (main.py:273-276): `now` plus N minutes; every minutes phrase
      is cut out. */
  function MinutesBranch(text: string, j: nat, now: int): (r: Outcome)
    requires Search(Compile(Minutes), text, 0) == Some(j)
    ensures r.Parsed? && r.reminder.Some? && |r.text| < |text| && NoOuterSpace(r.text)
  {
    var n := MinutesLenAt(text, j);
    MinutesLenIsPhrase(text, j, n);
    RemoveShrinks(Compile(Minutes), text, j);
    Parsed(Strip(Remove(Compile(Minutes), text, 0)), Some(now + PhraseMinutes(text, j, n) * 60))
  }

  /** The parse of main.py:257-276: the clock phrase takes precedence (the minutes
      branch is an `elif`), and with neither phrase the text comes back unchanged. */
  function ParseTime(text: string, now: int): (r: Outcome)
    ensures r.ClockOutOfRange? ==> r.hour > 23 || r.minute > 59
    ensures (r.Parsed? && r.reminder.None?) <==> (Search(Compile(Clock), text, 0).None? && Search(Compile(Minutes), text, 0).None?)
    ensures r.Parsed? && r.reminder.None? ==> r.text == text
    ensures r.Parsed? && r.reminder.Some? ==> |r.text| < |text|
    ensures r.Parsed? && NoOuterSpace(text) ==> NoOuterSpace(r.text)
  {
    match Search(Compile(Clock), text, 0)
    case Some(i) => ClockBranch(text, i, now)
    case None =>
      match Search(Compile(Minutes), text, 0)
      case Some(j) => MinutesBranch(text, j, now)
      case None => Parsed(text, None)
  }

  /* ---------- what the parse promises ---------- */

  /** Without a clock phrase before `k`, the clock pattern matches nowhere before `k`. */
  lemma NoClockMatchBefore(s: string, k: nat)
    requires NoClockBefore(s, k)
    ensures forall j :: 0 <= j < k ==> Compile(Clock)(s, j) == 0
  {
    forall j | 0 <= j < k ensures Compile(Clock)(s, j) == 0 {
      CompiledIs(Clock, s, j);
      ClockLenIsPhrase(s, j, ClockLenAt(s, j));
    }
  }

  /** Without a minutes phrase before `k`, the minutes pattern matches nowhere before `k`. */
  lemma NoMinutesMatchBefore(s: string, k: nat)
    requires NoMinutesBefore(s, k)
    ensures forall j :: 0 <= j < k ==> Compile(Minutes)(s, j) == 0
  {
    forall j | 0 <= j < k ensures Compile(Minutes)(s, j) == 0 {
      CompiledIs(Minutes, s, j);
      MinutesLenIsPhrase(s, j, MinutesLenAt(s, j));
    }
  }

  /** The leftmost clock phrase is what `re.search` reports, with its length. */
  lemma ClockFoundAt(s: string, k: nat, n: nat)
    requires ClockPhraseAt(s, k, n) && NoClockBefore(s, k)
    ensures Search(Compile(Clock), s, 0) == Some(k) && ClockLenAt(s, k) == n
  {
    ClockLenIsPhrase(s, k, n);
    CompiledIs(Clock, s, k);
    NoClockMatchBefore(s, k);
    SearchFinds(Compile(Clock), s, 0, k);
  }

  /** The leftmost minutes phrase is what `re.search` reports, with its length. */
  lemma MinutesFoundAt(s: string, k: nat, n: nat)
    requires MinutesPhraseAt(s, k, n) && NoMinutesBefore(s, k)
    ensures Search(Compile(Minutes), s, 0) == Some(k) && MinutesLenAt(s, k) == n
  {
    MinutesLenIsPhrase(s, k, n);
    CompiledIs(Minutes, s, k);
    NoMinutesMatchBefore(s, k);
    SearchFinds(Compile(Minutes), s, 0, k);
  }

  /** Without a clock phrase anywhere, `re.search` for the clock finds nothing. */
  lemma NoClockFound(s: string)
    requires NoClockBefore(s, |s|)
    ensures Search(Compile(Clock), s, 0).None?
  {
    NoClockMatchBefore(s, |s|);
  }

  /** Without a minutes phrase anywhere, `re.search` for it finds nothing. */
  lemma NoMinutesFound(s: string)
    requires NoMinutesBefore(s, |s|)
    ensures Search(Compile(Minutes), s, 0).None?
  {
    NoMinutesMatchBefore(s, |s|);
  }

  /** The clock phrase: hour and minute come from the leftmost `в H:MM`, seconds are zero.
      With `завтра` anywhere in the text the reminder is tomorrow at H:MM; without it the
      reminder is the first H:MM that is not before `now`, today or tomorrow. Minutes
      phrases may be present too: the clock takes precedence over them. */
  lemma ClockReminder(text: string, k: nat, n: nat, now: int)
    requires ClockPhraseAt(text, k, n) && NoClockBefore(text, k)
    requires PhraseHour(text, k, n) <= 23 && PhraseMinute(text, k, n) <= 59
    ensures var r := ParseTime(text, now);
            var at := Today(now) + PhraseHour(text, k, n) * 3600 + PhraseMinute(text, k, n) * 60;
            && r.Parsed? && r.reminder.Some?
            && (Contains(text, Tomorrow) ==> r.reminder.value == at + SecondsPerDay)
            && (!Contains(text, Tomorrow) ==>
                  && (r.reminder.value == at || r.reminder.value == at + SecondsPerDay)
                  && now <= r.reminder.value < now + SecondsPerDay)
  {
    ClockFoundAt(text, k, n);
    assert ParseTime(text, now) == ClockBranch(text, k, now);
  }

  /** An hour above 23 or a minute above 59 makes `now.replace` raise. */
  lemma ClockRaises(text: string, k: nat, n: nat, now: int)
    requires ClockPhraseAt(text, k, n) && NoClockBefore(text, k)
    requires PhraseHour(text, k, n) > 23 || PhraseMinute(text, k, n) > 59
    ensures ParseTime(text, now) == ClockOutOfRange(PhraseHour(text, k, n), PhraseMinute(text, k, n))
  {
    ClockFoundAt(text, k, n);
  }

  /** The text after a clock phrase: everything before the leftmost phrase stays; the
      phrase goes, and so does a ` завтра` directly after it (but not `Завтра`, and not a
      `завтра` anywhere else); the rest is scanned again, so later phrases go too; the
      result is stripped. */
  lemma ClockPhraseCut(text: string, k: nat, n: nat, now: int)
    requires ClockPhraseAt(text, k, n) && NoClockBefore(text, k)
    requires PhraseHour(text, k, n) <= 23 && PhraseMinute(text, k, n) <= 59
    ensures var cut := if HasAt(text, k + n, TomorrowQualifier) then n + |TomorrowQualifier| else n;
            && ParseTime(text, now).Parsed?
            && ParseTime(text, now).text
               == Strip(text[..k] + Remove(Compile(ClockWithTomorrow), text, k + cut))
  {
    ClockFoundAt(text, k, n);
    ClockRemoved(text, k, n);
    assert ParseTime(text, now) == ClockBranch(text, k, now);
  }

  /** `re.sub` of the clock pattern when its leftmost phrase is at `k`. */
  lemma ClockRemoved(text: string, k: nat, n: nat)
    requires ClockPhraseAt(text, k, n) && NoClockBefore(text, k)
    ensures var cut := if HasAt(text, k + n, TomorrowQualifier) then n + |TomorrowQualifier| else n;
            Remove(Compile(ClockWithTomorrow), text, 0)
            == text[..k] + Remove(Compile(ClockWithTomorrow), text, k + cut)
  {
    ClockFoundAt(text, k, n);
    SameSearchWithQualifier(text, 0);
    CompiledIs(ClockWithTomorrow, text, k);
    RemoveLeftmost(Compile(ClockWithTomorrow), text, 0, k);
    assert text[0..k] == text[..k];
  }

  /** The minutes phrase alone: the reminder is exactly `now` plus N minutes and every
      minutes phrase is cut out of the text. */
  lemma MinutesReminder(text: string, k: nat, n: nat, now: int)
    requires NoClockBefore(text, |text|)
    requires MinutesPhraseAt(text, k, n) && NoMinutesBefore(text, k)
    ensures ParseTime(text, now)
            == Parsed(Strip(text[..k] + Remove(Compile(Minutes), text, k + n)),
                      Some(now + PhraseMinutes(text, k, n) * 60))
  {
    NoClockFound(text);
    MinutesFoundAt(text, k, n);
    MinutesRemoved(text, k, n);
    MinutesBranchAt(text, k, n, now);
  }

  /** The minutes branch taken at the leftmost phrase `k`, of length `n`. */
  lemma MinutesBranchAt(text: string, k: nat, n: nat, now: int)
    requires Search(Compile(Clock), text, 0).None?
    requires Search(Compile(Minutes), text, 0) == Some(k) && MinutesLenAt(text, k) == n
    requires MinutesPhraseAt(text, k, n)
    ensures ParseTime(text, now)
            == Parsed(Strip(Remove(Compile(Minutes), text, 0)), Some(now + PhraseMinutes(text, k, n) * 60))
  {
    ParseTimeTakesMinutes(text, k, now);
    MinutesBranchValue(text, k, n, now);
  }

  /** `ParseTimeTakesMinutes` and `MinutesBranchValue` each unfold a single function, so
      that `MinutesBranchAt` never asks the solver to unfold both at once; on its own that
      query is slow and unstable. */
  lemma ParseTimeTakesMinutes(text: string, k: nat, now: int)
    requires Search(Compile(Clock), text, 0).None? && Search(Compile(Minutes), text, 0) == Some(k)
    ensures ParseTime(text, now) == MinutesBranch(text, k, now)
  {
  }

  lemma MinutesBranchValue(text: string, k: nat, n: nat, now: int)
    requires Search(Compile(Minutes), text, 0) == Some(k) && MinutesLenAt(text, k) == n
    requires MinutesPhraseAt(text, k, n)
    ensures MinutesBranch(text, k, now)
            == Parsed(Strip(Remove(Compile(Minutes), text, 0)), Some(now + PhraseMinutes(text, k, n) * 60))
  {
  }

  /** `re.sub` of the minutes pattern when its leftmost phrase is at `k`. */
  lemma MinutesRemoved(text: string, k: nat, n: nat)
    requires MinutesPhraseAt(text, k, n) && NoMinutesBefore(text, k)
    ensures Remove(Compile(Minutes), text, 0) == text[..k] + Remove(Compile(Minutes), text, k + n)
  {
    MinutesFoundAt(text, k, n);
    CompiledIs(Minutes, text, k);
    RemoveLeftmost(Compile(Minutes), text, 0, k);
    assert text[0..k] == text[..k];
  }

  /** Neither phrase: no reminder, and the text is returned as it came. */
  lemma NoPhraseNoReminder(text: string, now: int)
    requires NoClockBefore(text, |text|) && NoMinutesBefore(text, |text|)
    ensures ParseTime(text, now) == Parsed(text, None)
  {
    NoClockFound(text);
    NoMinutesFound(text);
  }

  /** The tomorrow test is a substring test, not a word test: `позавтракать` ("to have
      breakfast") contains `завтра`, so a breakfast at 9:00 is always put off a day. */
  lemma TomorrowInsideWord()
    ensures Contains("позавтракать в 9:00", Tomorrow)
  {
    var text := "позавтракать в 9:00";
    assert HasAt(text, 2, Tomorrow) by {
      assert text[2..8] == Tomorrow;
    }
    ContainsIff(text, Tomorrow);
  }

  /** So "позавтракать в 9:00" ("have breakfast at 9:00") is due tomorrow at 9:00 even
      when sent at dawn. */
  lemma BreakfastPutOff(now: int)
    ensures ParseTime("позавтракать в 9:00", now).Parsed?
    ensures ParseTime("позавтракать в 9:00", now).reminder == Some(Today(now) + 9 * 3600 + SecondsPerDay)
  {
    var text := "позавтракать в 9:00";
    TomorrowInsideWord();
    assert ClockPhraseAt(text, 13, 6);
    forall j: nat, n: nat | j < 13 ensures !ClockPhraseAt(text, j, n) {
      assert text[j] != ClockHead[0] || text[j + 1] != ClockHead[1];
    }
    assert PhraseHour(text, 13, 6) == 9 by {
      assert text[15..16] == "9";
    }
    assert PhraseMinute(text, 13, 6) == 0 by {
      assert text[17..19] == "00";
    }
    ClockReminder(text, 13, 6, now);
  }
}
