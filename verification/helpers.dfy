/** The pure utilities of `utils/helpers.ts`: text truncation, the e-mail
    address validator, the password strength classifier and the relative
    time labels of `formatDate`. */
module Helpers {
  import opened Wrappers
  import opened Text

  // =====================================================================
  // truncateText

  const Ellipsis: string := "..."

  /** `text` cut to `maxLength` characters with an ellipsis appended, or
      `text` itself when it already fits. A negative `maxLength` cuts to
      nothing, as `substring` clamps a negative end to zero. */
  function TruncateText(text: string, maxLength: int): (r: string)
    ensures |text| <= maxLength ==> r == text
    ensures |text| > maxLength ==>
      var keep := if maxLength < 0 then 0 else maxLength;
      && |r| == keep + 3
      && r[..keep] == text[..keep]
      && r[keep..] == Ellipsis
  {
    if |text| <= maxLength then text
    else
      var end := if maxLength < 0 then 0 else maxLength;
      text[..end] + Ellipsis
  }

  /** Truncating an already truncated text changes nothing more. */
  lemma TruncateIdempotent(text: string, maxLength: int)
    ensures TruncateText(TruncateText(text, maxLength), maxLength) == TruncateText(text, maxLength)
  {
    var r := TruncateText(text, maxLength);
    if |text| > maxLength {
      var keep := if maxLength < 0 then 0 else maxLength;
      assert r[..keep] + Ellipsis == r;
    }
  }

  // =====================================================================
  // isValidEmail: the pattern /^[^\s@]+@[^\s@]+\.[^\s@]+$/

  /** A character of the class `[^\s@]`. */
  predicate IsAddressChar(c: char) {
    !IsJsWhitespace(c) && c != '@'
  }

  predicate AllAddressChars(s: string) {
    forall i :: 0 <= i < |s| ==> IsAddressChar(s[i])
  }

  /** The part after `@` contains a dot with at least one character before
      it and one after it. */
  predicate HasInnerDot(d: string) {
    exists j :: 0 < j < |d| - 1 && d[j] == '.'
  }

  predicate ValidLocalPart(l: string) {
    |l| > 0 && AllAddressChars(l)
  }

  predicate ValidDomain(d: string) {
    AllAddressChars(d) && HasInnerDot(d)
  }

  /** The strings the pattern accepts, stated as a split at an `@`. */
  predicate EmailShape(s: string) {
    exists a :: 0 <= a < |s| && s[a] == '@' && ValidLocalPart(s[..a]) && ValidDomain(s[a + 1..])
  }

  /** States of a left-to-right scan that recognises the pattern. */
  datatype EmailState =
    | Start    // nothing read
    | Local    // a non-empty local part
    | AtSign   // the local part and its `@`
    | Host     // at least one domain character, no dot after the first one
    | HostDot  // the domain so far ends in its first dot past position 0
    | Accept   // the domain has a dot with characters on both sides
    | Reject

  function Step(q: EmailState, c: char): EmailState {
    if IsJsWhitespace(c) then Reject
    else match q
      case Start => if c == '@' then Reject else Local
      case Local => if c == '@' then AtSign else Local
      case AtSign => if c == '@' then Reject else Host
      case Host => if c == '@' then Reject else if c == '.' then HostDot else Host
      case HostDot => if c == '@' then Reject else Accept
      case Accept => if c == '@' then Reject else Accept
      case Reject => Reject
  }

  function Run(q: EmailState, s: string): EmailState
    decreases |s|
  {
    if |s| == 0 then q else Run(Step(q, s[0]), s[1..])
  }

  lemma {:induction false} RunAppend(q: EmailState, x: string, y: string)
    ensures Run(q, x + y) == Run(Run(q, x), y)
    decreases |x|
  {
    if |x| > 0 {
      assert (x + y)[1..] == x[1..] + y;
      RunAppend(Step(q, x[0]), x[1..], y);
    } else {
      assert x + y == y;
    }
  }

  lemma RunSnoc(q: EmailState, s: string, c: char)
    ensures Run(q, s + [c]) == Step(Run(q, s), c)
  {
    RunAppend(q, s, [c]);
  }

  lemma {:induction false} RejectAbsorbs(s: string)
    ensures Run(Reject, s) == Reject
    decreases |s|
  {
    if |s| > 0 { RejectAbsorbs(s[1..]); }
  }

  /** A string without `@` never leaves the local-part states. */
  lemma {:induction false} RunWithoutAt(s: string)
    requires '@' !in s
    ensures Run(Start, s) in {Start, Local, Reject}
    ensures Run(Start, s) == Start <==> |s| == 0
    ensures Run(Start, s) == Local <==> ValidLocalPart(s)
    decreases |s|
  {
    if |s| > 0 {
      var e, c := s[..|s| - 1], s[|s| - 1];
      assert s == e + [c];
      assert c != '@' && '@' !in e;
      RunSnoc(Start, e, c);
      RunWithoutAt(e);
      if !AllAddressChars(e) {
        var i :| 0 <= i < |e| && !IsAddressChar(e[i]);
        assert s[i] == e[i];
      }
      assert AllAddressChars(s) <==> AllAddressChars(e) && IsAddressChar(c) by {
        if AllAddressChars(e) && IsAddressChar(c) {
          forall i | 0 <= i < |s| ensures IsAddressChar(s[i]) {
            if i < |e| { assert s[i] == e[i]; }
          }
        }
      }
    }
  }

  /** Scanning the domain from the state after `@`. */
  lemma {:induction false} RunDomain(d: string)
    requires AllAddressChars(d)
    ensures Run(AtSign, d) ==
      if |d| == 0 then AtSign
      else if HasInnerDot(d) then Accept
      else if |d| >= 2 && d[|d| - 1] == '.' then HostDot
      else Host
    decreases |d|
  {
    if |d| > 0 {
      var e := d[..|d| - 1];
      var c := d[|d| - 1];
      assert d == e + [c];
      RunSnoc(AtSign, e, c);
      RunDomain(e);
      assert HasInnerDot(d) <==> HasInnerDot(e) || (|e| >= 2 && e[|e| - 1] == '.') by {
        if HasInnerDot(d) {
          var j :| 0 < j < |d| - 1 && d[j] == '.';
          assert e[j] == '.';
        }
        if HasInnerDot(e) {
          var j :| 0 < j < |e| - 1 && e[j] == '.';
          assert d[j] == '.';
        }
        if |e| >= 2 && e[|e| - 1] == '.' {
          assert d[|e| - 1] == '.';
        }
      }
    }
  }

  /** Any white space or second `@` in the domain rejects. */
  lemma {:induction false} RunBadDomain(q: EmailState, d: string)
    requires q in {AtSign, Host, HostDot, Accept}
    requires !AllAddressChars(d)
    ensures Run(q, d) == Reject
    decreases |d|
  {
    if IsAddressChar(d[0]) {
      assert !AllAddressChars(d[1..]) by {
        var i :| 0 <= i < |d| && !IsAddressChar(d[i]);
        assert d[1..][i - 1] == d[i];
      }
      RunBadDomain(Step(q, d[0]), d[1..]);
    } else {
      RejectAbsorbs(d[1..]);
    }
  }

  /** The first `@` of a string that has one. */
  function FirstAt(s: string): (a: nat)
    requires '@' in s
    ensures a < |s| && s[a] == '@' && '@' !in s[..a]
  {
    if s[0] == '@' then 0
    else
      var k := FirstAt(s[1..]);
      assert s[..k + 1] == [s[0]] + s[1..][..k];
      k + 1
  }

  /** A split witnessing the pattern is necessarily at the first `@`. */
  lemma ShapeSplitsAtFirstAt(s: string)
    requires '@' in s
    ensures var a := FirstAt(s);
      EmailShape(s) <==> ValidLocalPart(s[..a]) && ValidDomain(s[a + 1..])
  {
    var a := FirstAt(s);
    if EmailShape(s) {
      var b :| 0 <= b < |s| && s[b] == '@' && ValidLocalPart(s[..b]) && ValidDomain(s[b + 1..]);
      assert b > a ==> !IsAddressChar(s[..b][a]);
    }
  }

  /** The scan accepts exactly the strings of the pattern. */
  lemma ScanMatchesPattern(s: string)
    ensures Run(Start, s) == Accept <==> EmailShape(s)
  {
    if '@' !in s {
      RunWithoutAt(s);
    } else {
      var a := FirstAt(s);
      var l, d := s[..a], s[a + 1..];
      assert s == l + ['@'] + d;
      RunAppend(Start, l + ['@'], d);
      RunSnoc(Start, l, '@');
      RunWithoutAt(l);
      ShapeSplitsAtFirstAt(s);
      if Run(Start, l) == Local {
        if AllAddressChars(d) { RunDomain(d); } else { RunBadDomain(AtSign, d); }
      } else {
        RejectAbsorbs(d);
      }
    }
  }

  /** `isValidEmail`: runs the scan over the address. */
  method IsValidEmail(email: string) returns (ok: bool)
    ensures ok <==> EmailShape(email)
  {
    var q := Start;
    var i := 0;
    while i < |email|
      invariant 0 <= i <= |email|
      invariant Run(q, email[i..]) == Run(Start, email)
    {
      assert email[i..][1..] == email[i + 1..];
      q := Step(q, email[i]);
      i := i + 1;
    }
    ScanMatchesPattern(email);
    ok := q == Accept;
  }

  /** An accepted address contains exactly one `@`. */
  lemma EmailHasOneAt(s: string)
    requires EmailShape(s)
    ensures multiset(s)['@'] == 1
  {
    var a :| 0 <= a < |s| && s[a] == '@' && ValidLocalPart(s[..a]) && ValidDomain(s[a + 1..]);
    assert s == s[..a] + [s[a]] + s[a + 1..];
    assert '@' !in s[..a];
    assert '@' !in s[a + 1..];
    assert multiset(s) == multiset(s[..a]) + multiset{'@'} + multiset(s[a + 1..]);
  }

  // =====================================================================
  // checkPasswordStrength

  datatype Strength = Weak | Medium | Strong {
    function Rank(): nat {
      match this
      case Weak => 0
      case Medium => 1
      case Strong => 2
    }
  }

  datatype CharClass = Upper | Lower | Digit | Special

  const SpecialChars: string := "!@#$%^&*(),.?\":{}|<>"

  predicate InClass(c: char, k: CharClass) {
    match k
    case Upper => 'A' <= c <= 'Z'
    case Lower => 'a' <= c <= 'z'
    case Digit => '0' <= c <= '9'
    case Special => c in SpecialChars
  }

  /** Some character of `p` belongs to class `k` (the `/[…]/.test` calls). */
  predicate HasClass(p: string, k: CharClass) {
    exists i :: 0 <= i < |p| && InClass(p[i], k)
  }

  /** `[...].filter(Boolean).length`. */
  function CountTrue(flags: seq<bool>): nat {
    if |flags| == 0 then 0
    else (if flags[0] then 1 else 0) + CountTrue(flags[1..])
  }

  lemma CountFour(f: seq<bool>)
    requires |f| == 4
    ensures CountTrue(f) == (if f[0] then 1 else 0) + (if f[1] then 1 else 0) + (if f[2] then 1 else 0) + (if f[3] then 1 else 0)
  {
    assert f[1..][1..][1..][1..] == [];
    assert CountTrue(f[1..][1..][1..]) == (if f[3] then 1 else 0);
    assert CountTrue(f[1..][1..]) == (if f[2] then 1 else 0) + (if f[3] then 1 else 0);
    assert CountTrue(f[1..]) == (if f[1] then 1 else 0) + CountTrue(f[1..][1..]);
  }

  function ClassIndex(k: CharClass): nat {
    match k
    case Upper => 0
    case Lower => 1
    case Digit => 2
    case Special => 3
  }

  function ClassFlags(p: string): (f: seq<bool>)
    ensures |f| == 4 && forall k :: f[ClassIndex(k)] == HasClass(p, k)
  {
    [HasClass(p, Upper), HasClass(p, Lower), HasClass(p, Digit), HasClass(p, Special)]
  }

  function ClassCount(p: string): nat {
    CountTrue(ClassFlags(p))
  }

  /** `checkPasswordStrength`. Short passwords are classified by length
      alone; from ten characters on, by how many classes occur. */
  function CheckPasswordStrength(password: string): (r: Strength)
    ensures |password| < 6 ==> r == Weak
    ensures 6 <= |password| < 10 ==> r == Medium
    ensures |password| >= 10 ==> (r == Strong <==> ClassCount(password) >= 3)
    ensures |password| >= 10 ==> (r == Weak <==> ClassCount(password) <= 1)
  {
    if |password| < 6 then Weak
    else if |password| < 10 then Medium
    else
      var strength := ClassCount(password);
      if strength >= 3 then Strong
      else if strength >= 2 then Medium
      else Weak
  }

  /** At most one of the four classes occurs in `p`. */
  ghost predicate AtMostOneClass(p: string) {
    forall k1, k2 :: HasClass(p, k1) && HasClass(p, k2) ==> k1 == k2
  }

  /** At most one of the four classes is missing from `p`. */
  ghost predicate AtMostOneMissing(p: string) {
    forall k1, k2 :: !HasClass(p, k1) && !HasClass(p, k2) ==> k1 == k2
  }

  /** For long passwords the classification speaks of classes only: weak
      with at most one class, strong with at most one class missing, and
      medium with exactly two. */
  lemma StrengthByClasses(p: string)
    requires |p| >= 10
    ensures CheckPasswordStrength(p) == Weak <==> AtMostOneClass(p)
    ensures CheckPasswordStrength(p) == Strong <==> AtMostOneMissing(p)
  {
    var f := ClassFlags(p);
    CountFour(f);
    forall k1, k2 | HasClass(p, k1) && HasClass(p, k2) && k1 != k2 ensures ClassCount(p) >= 2 {
      assert f[ClassIndex(k1)] && f[ClassIndex(k2)];
    }
    forall k1, k2 | !HasClass(p, k1) && !HasClass(p, k2) && k1 != k2 ensures ClassCount(p) <= 2 {
      assert !f[ClassIndex(k1)] && !f[ClassIndex(k2)];
    }
  }

  lemma {:induction false} CountTrueMonotone(a: seq<bool>, b: seq<bool>)
    requires |a| == |b|
    requires forall i :: 0 <= i < |a| && a[i] ==> b[i]
    ensures CountTrue(a) <= CountTrue(b)
  {
    if |a| > 0 {
      CountTrueMonotone(a[1..], b[1..]);
    }
  }

  /** For passwords of ten or more characters, having every class another
      password has never gives a weaker verdict. */
  lemma MoreClassesNeverWeaker(p: string, q: string)
    requires |p| >= 10 && |q| >= 10
    requires forall k :: HasClass(p, k) ==> HasClass(q, k)
    ensures CheckPasswordStrength(p).Rank() <= CheckPasswordStrength(q).Rank()
  {
    CountTrueMonotone(ClassFlags(p), ClassFlags(q));
  }

  /** Appending characters to a password of ten or more characters never
      weakens it. */
  lemma AppendNeverWeakens(p: string, extra: string)
    requires |p| >= 10
    ensures CheckPasswordStrength(p).Rank() <= CheckPasswordStrength(p + extra).Rank()
  {
    forall k | HasClass(p, k) ensures HasClass(p + extra, k) {
      var i :| 0 <= i < |p| && InClass(p[i], k);
      assert (p + extra)[i] == p[i];
    }
    MoreClassesNeverWeaker(p, p + extra);
  }

  /** Below ten characters the verdict ignores content, so a tenth character
      can lower it: nine lower-case letters are medium, ten are weak. */
  lemma TenthCharacterCanWeaken()
    ensures CheckPasswordStrength("aaaaaaaaa") == Medium
    ensures CheckPasswordStrength("aaaaaaaaaa") == Weak
  {
    var p := "aaaaaaaaaa";
    assert !HasClass(p, Upper) && !HasClass(p, Digit) && !HasClass(p, Special);
  }

  // =====================================================================
  // formatDate

  const MinuteMs: int := 60000
  const HourMs: int := 3600000
  const DayMs: int := 86400000
  const WeekMs: int := 604800000

  /** Which label `formatDate` gives to a time `diff` milliseconds old. */
  datatype Elapsed =
    | JustNow
    | MinutesAgo(minutes: nat)
    | HoursAgo(hours: nat)
    | DaysAgo(days: nat)
    | CalendarDate
  {
    /** Coarseness of the label's unit. */
    function UnitRank(): nat {
      match this
      case JustNow => 0
      case MinutesAgo(_) => 1
      case HoursAgo(_) => 2
      case DaysAgo(_) => 3
      case CalendarDate => 4
    }

    function Count(): nat {
      match this
      case MinutesAgo(n) => n
      case HoursAgo(n) => n
      case DaysAgo(n) => n
      case _ => 0
    }
  }

  /** The branches of `formatDate`, tried in order: each label counts the
      whole units elapsed, and each count stays below the next unit. */
  function ElapsedBucket(diff: int): (b: Elapsed)
    ensures b == JustNow <==> diff < MinuteMs
    ensures b.MinutesAgo? <==> MinuteMs <= diff < HourMs
    ensures b.HoursAgo? <==> HourMs <= diff < DayMs
    ensures b.DaysAgo? <==> DayMs <= diff < WeekMs
    ensures b == CalendarDate <==> WeekMs <= diff
    ensures b.MinutesAgo? ==> 1 <= b.minutes <= 59 && b.minutes * MinuteMs <= diff < (b.minutes + 1) * MinuteMs
    ensures b.HoursAgo? ==> 1 <= b.hours <= 23 && b.hours * HourMs <= diff < (b.hours + 1) * HourMs
    ensures b.DaysAgo? ==> 1 <= b.days <= 6 && b.days * DayMs <= diff < (b.days + 1) * DayMs
  {
    if diff < MinuteMs then JustNow
    else if diff < HourMs then MinutesAgo(diff / MinuteMs)
    else if diff < DayMs then HoursAgo(diff / HourMs)
    else if diff < WeekMs then DaysAgo(diff / DayMs)
    else CalendarDate
  }

  /** An older time never gets a more recent label. */
  lemma BucketMonotone(d1: int, d2: int)
    requires d1 <= d2
    ensures var b1, b2 := ElapsedBucket(d1), ElapsedBucket(d2);
      b1.UnitRank() < b2.UnitRank() || (b1.UnitRank() == b2.UnitRank() && b1.Count() <= b2.Count())
  {
  }

  const JustNowLabel: string := "방금 전"
  const MinutesSuffix: string := "분 전"
  const HoursSuffix: string := "시간 전"
  const DaysSuffix: string := "일 전"

  /** `formatDate` with the elapsed time `diff` as input; `calendarDate` is
      what the locale library renders for dates a week old or more. */
  function FormatDate(diff: int, calendarDate: string): (r: string)
    ensures diff < MinuteMs ==> r == JustNowLabel
    ensures diff >= WeekMs ==> r == calendarDate
  {
    match ElapsedBucket(diff)
    case JustNow => JustNowLabel
    case MinutesAgo(n) => NatToDecimal(n) + MinutesSuffix
    case HoursAgo(n) => NatToDecimal(n) + HoursSuffix
    case DaysAgo(n) => NatToDecimal(n) + DaysSuffix
    case CalendarDate => calendarDate
  }

  predicate EndsWith(s: string, suffix: string) {
    |suffix| <= |s| && s[|s| - |suffix|..] == suffix
  }

  /** Reads a relative label back: the number and unit it names. */
  function ParseRelativeLabel(s: string): Option<Elapsed> {
    if s == JustNowLabel then Some(JustNow)
    else match CountBefore(s, MinutesSuffix)
      case Some(n) => Some(MinutesAgo(n))
      case None => match CountBefore(s, HoursSuffix)
        case Some(n) => Some(HoursAgo(n))
        case None => match CountBefore(s, DaysSuffix)
          case Some(n) => Some(DaysAgo(n))
          case None => None
  }

  /** The number written in front of `suffix`, when `s` is a number in
      canonical decimal form followed by `suffix`. */
  function CountBefore(s: string, suffix: string): Option<nat> {
    if EndsWith(s, suffix) then
      var digits := s[..|s| - |suffix|];
      if CanonicalDigits(digits) then Some(DecimalValue(digits)) else None
    else None
  }

  /** The only string that reads as `n` before `suffix` is the rendering of
      `n` followed by `suffix`. */
  lemma CountBeforeCanonical(s: string, suffix: string)
    requires CountBefore(s, suffix).Some?
    ensures s == NatToDecimal(CountBefore(s, suffix).value) + suffix
  {
    var digits := s[..|s| - |suffix|];
    CanonicalDigitsRoundTrip(digits);
    assert s == digits + s[|s| - |suffix|..];
  }

  lemma RenderedCountParses(n: nat, suffix: string)
    ensures CountBefore(NatToDecimal(n) + suffix, suffix) == Some(n)
  {
    var s := NatToDecimal(n) + suffix;
    assert s[..|s| - |suffix|] == NatToDecimal(n);
    NatDecimalRoundTrip(n);
  }

  /** Every label for a time less than a week old reads back as the bucket
      it came from, so two such times share a label only when they fall in
      the same bucket. */
  lemma FormatDateRoundTrip(diff: int, calendarDate: string)
    requires diff < WeekMs
    ensures ParseRelativeLabel(FormatDate(diff, calendarDate)) == Some(ElapsedBucket(diff))
  {
    match ElapsedBucket(diff)
    case JustNow =>
    case MinutesAgo(n) => MinutesLabelParses(n);
    case HoursAgo(n) => HoursLabelParses(n);
    case DaysAgo(n) => DaysLabelParses(n);
  }

  lemma MinutesLabelParses(n: nat)
    ensures ParseRelativeLabel(NatToDecimal(n) + MinutesSuffix) == Some(MinutesAgo(n))
  {
    var r := NatToDecimal(n) + MinutesSuffix;
    RenderedCountParses(n, MinutesSuffix);
    assert r != JustNowLabel by { assert r[|r| - 3] != JustNowLabel[|JustNowLabel| - 3] || |r| != |JustNowLabel|; }
  }

  lemma HoursLabelParses(n: nat)
    ensures ParseRelativeLabel(NatToDecimal(n) + HoursSuffix) == Some(HoursAgo(n))
  {
    var r := NatToDecimal(n) + HoursSuffix;
    RenderedCountParses(n, HoursSuffix);
    assert r != JustNowLabel by { assert r[|r| - 4] != JustNowLabel[0]; }
    assert !EndsWith(r, MinutesSuffix) by { assert r[|r| - 3] != MinutesSuffix[0]; }
  }

  lemma DaysLabelParses(n: nat)
    ensures ParseRelativeLabel(NatToDecimal(n) + DaysSuffix) == Some(DaysAgo(n))
  {
    var r := NatToDecimal(n) + DaysSuffix;
    RenderedCountParses(n, DaysSuffix);
    assert r != JustNowLabel by { assert r[|r| - 3] != JustNowLabel[|JustNowLabel| - 3] || |r| != |JustNowLabel|; }
    assert !EndsWith(r, MinutesSuffix) by { assert r[|r| - 3] != MinutesSuffix[0]; }
    assert !EndsWith(r, HoursSuffix) by {
      if |r| >= 4 { assert r[|r| - 3] != HoursSuffix[1]; }
    }
  }

  /** The label `formatDate` writes for a time under a week old is the only
      string that reads back as that time's bucket. */
  lemma RelativeLabelUnique(diff: int, calendarDate: string, s: string)
    requires diff < WeekMs
    requires ParseRelativeLabel(s) == Some(ElapsedBucket(diff))
    ensures s == FormatDate(diff, calendarDate)
  {
    if s != JustNowLabel {
      if CountBefore(s, MinutesSuffix).Some? {
        CountBeforeCanonical(s, MinutesSuffix);
      } else if CountBefore(s, HoursSuffix).Some? {
        CountBeforeCanonical(s, HoursSuffix);
      } else {
        CountBeforeCanonical(s, DaysSuffix);
      }
    }
  }

  /** Two times under a week old get the same label only when they fall in
      the same bucket. */
  lemma FormatDateDistinguishesBuckets(d1: int, d2: int, calendarDate: string)
    requires d1 < WeekMs && d2 < WeekMs
    requires FormatDate(d1, calendarDate) == FormatDate(d2, calendarDate)
    ensures ElapsedBucket(d1) == ElapsedBucket(d2)
  {
    FormatDateRoundTrip(d1, calendarDate);
    FormatDateRoundTrip(d2, calendarDate);
  }
}
