/** The per-field rules of the CSV cleaner (question-1-data-cleaning/script.js):
    which columns hold e-mail addresses or phone numbers, the e-mail shape test,
    the three ordered e-mail repairs, and the US phone formatter. */
module CleaningRules {
  import opened Text

  /** The outcome of one rule on one field: the value written back and whether the
      stage's counter was incremented for it. */
  datatype Fix = Fix(value: string, counted: bool)

  // ------------------------------------------------------------ e-mail shape

  /** A character of the class `[^\s@]`. */
  predicate IsPlain(c: char) { !IsSpace(c) && c != '@' }

  predicate AllPlain(s: string) { forall i :: 0 <= i < |s| ==> IsPlain(s[i]) }

  /** `[^\s@]+\.[^\s@]+` matched against the whole of `d`. */
  predicate IsDottedDomain(d: string) {
    AllPlain(d) && exists k :: 1 <= k < |d| - 1 && d[k] == '.'
  }

  /** The test `/^[^\s@]+@[^\s@]+\.[^\s@]+$/`: a non-empty local part, one `@`, and
      a domain with a dot that has at least one character on each side, none of
      them whitespace or `@`. */
  predicate IsValidEmail(s: string) {
    exists p :: 0 < p < |s| && s[p] == '@' && AllPlain(s[..p]) && IsDottedDomain(s[p + 1..])
  }

  lemma AllPlainNoAt(s: string)
    requires AllPlain(s)
    ensures '@' !in s && CountChar(s, '@') == 0
  {
    assert forall i | 0 <= i < |s| :: s[i] != '@' by {
      forall i | 0 <= i < |s| ensures s[i] != '@' { assert IsPlain(s[i]); }
    }
    NoCharCount(s, '@');
  }

  /** A well-shaped address has exactly one `@` and at least one dot. */
  lemma ValidEmailHasOneAt(s: string)
    requires IsValidEmail(s)
    ensures CountChar(s, '@') == 1 && '.' in s
  {
    var p :| 0 < p < |s| && s[p] == '@' && AllPlain(s[..p]) && IsDottedDomain(s[p + 1..]);
    var local, domain := s[..p], s[p + 1..];
    assert s == local + "@" + domain;
    CountCharConcat(local + "@", domain, '@');
    CountCharConcat(local, "@", '@');
    AllPlainNoAt(local);
    AllPlainNoAt(domain);
    var k :| 1 <= k < |domain| - 1 && domain[k] == '.';
    assert s[p + 1 + k] == '.';
  }

  /** A value without a dot is never well-shaped. */
  lemma NoDotInvalid(s: string)
    requires '.' !in s
    ensures !IsValidEmail(s)
  {
    forall p | 0 < p < |s| && s[p] == '@'
      ensures !IsDottedDomain(s[p + 1..])
    {
      assert '.' !in s[p + 1..];
    }
  }

  /** A value with `@@` in it is never well-shaped. */
  lemma DoubleAtInvalid(s: string, q: nat)
    requires q + 1 < |s| && s[q] == '@' && s[q + 1] == '@'
    ensures !IsValidEmail(s)
  {
    forall p | 0 < p < |s| && s[p] == '@'
      ensures !(AllPlain(s[..p]) && IsDottedDomain(s[p + 1..]))
    {
      if q < p {
        assert s[..p][q] == '@';
      } else {
        assert s[p + 1..][q - p] == '@';
      }
    }
  }

  // ------------------------------------------------------------ e-mail repairs

  /** The three repairs, in the order in which the first applicable one is chosen. */
  datatype EmailFix = AtWord | MissingDot | RepeatedAt | NoFix

  /** Chooses the repair for a lower-cased, trimmed value `w`. */
  function SelectEmailFix(w: string): EmailFix {
    if '@' !in w && Contains(w, " at ") then AtWord
    else if '@' in w && '.' !in w then MissingDot
    else if CountChar(w, '@') > 1 then RepeatedAt
    else NoFix
  }

  /** `s.replace(/@@+/g, '@')`: every run of two or more `@` becomes one `@`. */
  function CollapseAts(s: string): string {
    if |s| >= 2 && s[0] == '@' && s[1] == '@' then CollapseAts(s[1..])
    else if s == [] then []
    else [s[0]] + CollapseAts(s[1..])
  }

  function ApplyEmailFix(fix: EmailFix, w: string): string {
    match fix
    case AtWord => ReplaceFirst(w, " at ", "@")
    case MissingDot => w + ".com"
    case RepeatedAt => CollapseAts(w)
    case NoFix => w
  }

  /** The e-mail rule on one field: an empty or well-shaped value is left alone;
      any other value is lower-cased and trimmed, the first applicable repair is
      applied, and the result is written back whether or not a repair applied. The
      counter goes up exactly when a repair branch was taken. */
  function RepairEmail(v: string): (f: Fix)
    ensures v == [] || IsValidEmail(v) ==> f == Fix(v, false)
    ensures !(v == [] || IsValidEmail(v)) ==>
      var w := Lower(Trim(v));
      && f.counted == (SelectEmailFix(w) != NoFix)
      && f.value == ApplyEmailFix(SelectEmailFix(w), w)
  {
    if v == [] || IsValidEmail(v) then Fix(v, false)
    else
      var w := Lower(Trim(v));
      var fix := SelectEmailFix(w);
      Fix(ApplyEmailFix(fix, w), fix != NoFix)
  }

  // Properties of the individual repairs.

  /** Putting one `@` between two `@`-free strings gives a value whose only `@`
      is the inserted one. */
  lemma SpliceAt(a: string, b: string)
    requires '@' !in a && '@' !in b
    ensures var r := a + "@" + b;
      CountChar(r, '@') == 1 && IndexFrom(r, "@", 0) == Some(|a|)
  {
    var r := a + "@" + b;
    CountCharConcat(a + "@", b, '@');
    CountCharConcat(a, "@", '@');
    NoCharCount(a, '@');
    NoCharCount(b, '@');
    assert OccursAt(r, "@", |a|);
    forall j: nat | j < |a| ensures !OccursAt(r, "@", j) {
      assert r[j] == a[j];
    }
    FirstOccurrence(r, "@", |a|);
  }

  /** Repair (a) is undone by putting " at " back in place of the one `@` it made. */
  lemma AtWordRoundTrip(w: string)
    requires SelectEmailFix(w) == AtWord
    ensures var r := ApplyEmailFix(AtWord, w);
      CountChar(r, '@') == 1 && ReplaceFirst(r, "@", " at ") == w
  {
    ContainsIffFound(w, " at ");
    var i := IndexFrom(w, " at ", 0).value;
    var a, b := w[..i], w[i + 4..];
    assert w == a + w[i..i + 4] + b;
    assert '@' !in a && '@' !in b;
    SpliceAt(a, b);
    var r := a + "@" + b;
    assert r[..i] == a && r[i + 1..] == b;
  }

  lemma FirstOccurrence(s: string, t: string, i: nat)
    requires OccursAt(s, t, i)
    requires forall j: nat :: j < i ==> !OccursAt(s, t, j)
    ensures IndexFrom(s, t, 0) == Some(i)
  {
    if IndexFrom(s, t, 0).Some? {
      var k := IndexFrom(s, t, 0).value;
      assert !(k < i) && !(i < k);
    }
  }

  /** Repair (b) turns a value that is a plain local part, `@` and a plain dotless
      domain into a well-shaped address. */
  lemma MissingDotMakesValid(w: string, p: nat)
    requires 0 < p < |w| - 1 && w[p] == '@' && AllPlain(w[..p]) && AllPlain(w[p + 1..])
    requires '.' !in w
    ensures SelectEmailFix(w) == MissingDot
    ensures IsValidEmail(ApplyEmailFix(MissingDot, w))
  {
    var r := w + ".com";
    assert r[..p] == w[..p];
    var d := r[p + 1..];
    assert d == w[p + 1..] + ".com";
    assert d[|w| - p - 1] == '.';
    assert AllPlain(d);
    assert IsDottedDomain(d);
  }

  /** Every character that is not `@` survives repair (c), in order. */
  function WithoutAts(s: string): string {
    if s == [] then [] else (if s[0] == '@' then [] else [s[0]]) + WithoutAts(s[1..])
  }

  predicate NoDoubleAt(s: string) {
    forall i :: 0 <= i < |s| - 1 ==> !(s[i] == '@' && s[i + 1] == '@')
  }

  lemma {:induction false} CollapseKeepsEnds(s: string)
    requires s != []
    ensures CollapseAts(s) != []
    ensures CollapseAts(s)[0] == s[0]
    ensures CollapseAts(s)[|CollapseAts(s)| - 1] == s[|s| - 1]
  {
    if |s| >= 2 {
      CollapseKeepsEnds(s[1..]);
    }
  }

  /** Repair (c) leaves no `@@`, keeps every other character, and is idempotent. */
  lemma {:induction false} CollapseAtsSpec(s: string)
    ensures NoDoubleAt(CollapseAts(s))
    ensures WithoutAts(CollapseAts(s)) == WithoutAts(s)
    ensures CollapseAts(CollapseAts(s)) == CollapseAts(s)
  {
    if |s| >= 2 && s[0] == '@' && s[1] == '@' {
      CollapseAtsSpec(s[1..]);
    } else if s != [] {
      var t := s[1..];
      CollapseAtsSpec(t);
      var r := CollapseAts(s);
      assert r == [s[0]] + CollapseAts(t);
      if t != [] {
        CollapseKeepsEnds(t);
      }
      assert r[1..] == CollapseAts(t);
      CollapseOfNoDouble(r);
    }
  }

  lemma {:induction false} CollapseOfNoDouble(s: string)
    requires NoDoubleAt(s)
    ensures CollapseAts(s) == s
  {
    if s != [] {
      assert NoDoubleAt(s[1..]) by {
        forall i | 0 <= i < |s[1..]| - 1 ensures !(s[1..][i] == '@' && s[1..][i + 1] == '@') {
          assert s[1..][i] == s[i + 1] && s[1..][i + 1] == s[i + 2];
        }
      }
      CollapseOfNoDouble(s[1..]);
    }
  }

  /** Lower-casing keeps a trimmed value trimmed. */
  lemma LowerKeepsTrimmed(t: string)
    requires IsTrimmed(t)
    ensures IsTrimmed(Lower(t)) && NoUpper(Lower(t))
  {
    var w := Lower(t);
    if w != [] {
      assert w[0] == LowerChar(t[0]) && w[|w| - 1] == LowerChar(t[|t| - 1]);
    }
  }

  lemma AtWordKeepsTrimmed(w: string)
    requires IsTrimmed(w) && NoUpper(w) && SelectEmailFix(w) == AtWord
    ensures IsTrimmed(ApplyEmailFix(AtWord, w)) && NoUpper(ApplyEmailFix(AtWord, w))
  {
    ContainsIffFound(w, " at ");
    var i := IndexFrom(w, " at ", 0).value;
    var r := w[..i] + "@" + w[i + 4..];
    assert w[i..i + 4] == " at ";
    assert w[i] == w[i..i + 4][0] && w[i + 3] == w[i..i + 4][3];
    assert r[0] == w[0] && r[|r| - 1] == w[|w| - 1];
    forall j | 0 <= j < |r| ensures !IsUpper(r[j]) {
      if j < i { assert r[j] == w[j]; }
      else if j > i { assert r[j] == w[j + 3]; }
    }
  }

  lemma RepeatedAtKeepsTrimmed(w: string)
    requires IsTrimmed(w) && NoUpper(w) && w != []
    ensures IsTrimmed(CollapseAts(w)) && NoUpper(CollapseAts(w))
  {
    CollapseKeepsEnds(w);
    CollapseChars(w);
  }

  lemma FixKeepsNormal(w: string)
    requires IsTrimmed(w) && NoUpper(w)
    ensures var r := ApplyEmailFix(SelectEmailFix(w), w); IsTrimmed(r) && NoUpper(r)
  {
    match SelectEmailFix(w)
    case AtWord => AtWordKeepsTrimmed(w);
    case MissingDot =>
    case RepeatedAt => RepeatedAtKeepsTrimmed(w);
    case NoFix =>
  }

  /** A value that was rewritten is stored without upper-case letters and without
      leading or trailing whitespace. */
  lemma RepairedEmailIsNormal(v: string)
    requires !(v == [] || IsValidEmail(v))
    ensures NoUpper(RepairEmail(v).value) && IsTrimmed(RepairEmail(v).value)
  {
    LowerKeepsTrimmed(Trim(v));
    FixKeepsNormal(Lower(Trim(v)));
  }

  lemma {:induction false} CollapseChars(s: string)
    ensures forall j :: 0 <= j < |CollapseAts(s)| ==> CollapseAts(s)[j] in s
  {
    if s != [] {
      CollapseChars(s[1..]);
    }
  }

  // ------------------------------------------------------------ phone numbers

  /** `s.replace(/\D/g, '')`. */
  function DigitsOnly(s: string): (r: string)
    ensures AllDigits(r) && |r| <= |s|
  {
    if s == [] then [] else (if IsDigit(s[0]) then [s[0]] else []) + DigitsOnly(s[1..])
  }

  lemma {:induction false} DigitsOnlyConcat(a: string, b: string)
    ensures DigitsOnly(a + b) == DigitsOnly(a) + DigitsOnly(b)
  {
    if a == [] {
      assert a + b == b;
    } else {
      assert (a + b)[1..] == a[1..] + b;
      DigitsOnlyConcat(a[1..], b);
    }
  }

  lemma {:induction false} DigitsOnlyOfDigits(s: string)
    requires AllDigits(s)
    ensures DigitsOnly(s) == s
  {
    if s != [] {
      DigitsOnlyOfDigits(s[1..]);
    }
  }

  /** `(AAA) BBB-CCCC` */
  function FormatLocal(d: string): (r: string)
    requires |d| == 10
    ensures |r| == 14
  {
    "(" + d[..3] + ") " + d[3..6] + "-" + d[6..]
  }

  /** `+1 (AAA) BBB-CCCC`, dropping the leading country digit of `d`. */
  function FormatWithCountryCode(d: string): (r: string)
    requires |d| == 11
    ensures |r| == 17
  {
    "+1 (" + d[1..4] + ") " + d[4..7] + "-" + d[7..]
  }

  /** Formatting keeps exactly the digits it was given. */
  lemma FormatLocalDigits(d: string)
    requires |d| == 10 && AllDigits(d)
    ensures DigitsOnly(FormatLocal(d)) == d
  {
    DigitsOnlyConcat("(" + d[..3] + ") " + d[3..6] + "-", d[6..]);
    DigitsOnlyConcat("(" + d[..3] + ") " + d[3..6], "-");
    DigitsOnlyConcat("(" + d[..3] + ") ", d[3..6]);
    DigitsOnlyConcat("(" + d[..3], ") ");
    DigitsOnlyConcat("(", d[..3]);
    DigitsOnlyOfDigits(d[..3]);
    DigitsOnlyOfDigits(d[3..6]);
    DigitsOnlyOfDigits(d[6..]);
    assert DigitsOnly(") ") == [] && DigitsOnly("-") == [] && DigitsOnly("(") == [];
    assert d == d[..3] + d[3..6] + d[6..];
  }

  lemma FormatWithCountryCodeDigits(d: string)
    requires |d| == 11 && AllDigits(d) && d[0] == '1'
    ensures DigitsOnly(FormatWithCountryCode(d)) == d
  {
    DigitsOnlyConcat("+1 (" + d[1..4] + ") " + d[4..7] + "-", d[7..]);
    DigitsOnlyConcat("+1 (" + d[1..4] + ") " + d[4..7], "-");
    DigitsOnlyConcat("+1 (" + d[1..4] + ") ", d[4..7]);
    DigitsOnlyConcat("+1 (" + d[1..4], ") ");
    DigitsOnlyConcat("+1 (", d[1..4]);
    DigitsOnlyOfDigits(d[1..4]);
    DigitsOnlyOfDigits(d[4..7]);
    DigitsOnlyOfDigits(d[7..]);
    assert DigitsOnly("+1 (") == "1" by {
      assert "+1 ("[1..] == "1 (";
      assert "1 ("[1..] == " (";
      assert " ("[1..] == "(";
    }
    assert DigitsOnly(") ") == [] && DigitsOnly("-") == [];
    assert d == [d[0]] + d[1..4] + d[4..7] + d[7..];
  }

  /** The phone rule on one field: the digits of a non-blank value are formatted
      when there are ten of them, or eleven starting with 1; the value is written
      and counted only when the formatted text differs from it. */
  function RepairPhone(v: string): (f: Fix)
    ensures f.counted <==> f.value != v
    ensures DigitsOnly(f.value) == DigitsOnly(v)
    ensures f.counted ==> Trim(v) != [] && var d := DigitsOnly(v);
      || (|d| == 10 && f.value == FormatLocal(d))
      || (|d| == 11 && d[0] == '1' && f.value == FormatWithCountryCode(d))
    ensures !f.counted && Trim(v) != [] ==>
      var d := DigitsOnly(v);
      || (|d| == 10 && v == FormatLocal(d))
      || (|d| == 11 && d[0] == '1' && v == FormatWithCountryCode(d))
      || (|d| != 10 && !(|d| == 11 && d[0] == '1'))
  {
    if v == [] || Trim(v) == [] then Fix(v, false)
    else
      var d := DigitsOnly(v);
      if |d| == 10 then
        var formatted := FormatLocal(d);
        FormatLocalDigits(d);
        if formatted != v then Fix(formatted, true) else Fix(v, false)
      else if |d| == 11 && d[0] == '1' then
        var formatted := FormatWithCountryCode(d);
        FormatWithCountryCodeDigits(d);
        if formatted != v then Fix(formatted, true) else Fix(v, false)
      else Fix(v, false)
  }

  /** A second run of the phone rule over its own output changes and counts nothing. */
  lemma RepairPhoneIdempotent(v: string)
    ensures var u := RepairPhone(v).value; RepairPhone(u) == Fix(u, false)
  {
    var f := RepairPhone(v);
    var u := f.value;
    if f.counted {
      var d := DigitsOnly(v);
      assert DigitsOnly(u) == d;
      assert u[0] == '(' || u[0] == '+';
      assert Trim(u) != [] by {
        TrimEmptyIffBlank(u);
      }
    }
  }

  // ------------------------------------------------------------ records

  /** One parsed CSV row: column name to field text. */
  type Record = map<string, string>

  /** The two repair stages. */
  datatype Rule = EmailRule | PhoneRule

  /** Which columns a stage looks at, by case-insensitive substring of the name. */
  predicate Targets(rule: Rule, column: string) {
    var c := Lower(column);
    match rule
    case EmailRule => Contains(c, "email") || Contains(c, "mail")
    case PhoneRule => Contains(c, "phone") || Contains(c, "tel") || Contains(c, "mobile")
  }

  function RepairValue(rule: Rule, v: string): Fix {
    match rule
    case EmailRule => RepairEmail(v)
    case PhoneRule => RepairPhone(v)
  }

  /** The record after a stage has rewritten every targeted column of it. */
  function RepairRecord(rule: Rule, r: Record): Record {
    map k | k in r :: if Targets(rule, k) then RepairValue(rule, r[k]).value else r[k]
  }

  /** How much a stage adds to its counter for one record. */
  function FixCount(rule: Rule, r: Record): nat {
    |set k | k in r && Targets(rule, k) && RepairValue(rule, r[k]).counted|
  }

  /** The phone stage is idempotent on a record: a second pass leaves it as it is
      and counts nothing. */
  lemma PhoneStageIdempotent(r: Record)
    ensures RepairRecord(PhoneRule, RepairRecord(PhoneRule, r)) == RepairRecord(PhoneRule, r)
    ensures FixCount(PhoneRule, RepairRecord(PhoneRule, r)) == 0
  {
    var r1 := RepairRecord(PhoneRule, r);
    forall k | k in r1 && Targets(PhoneRule, k)
      ensures RepairPhone(r1[k]) == Fix(r1[k], false)
    {
      RepairPhoneIdempotent(r[k]);
    }
    assert (set k | k in r1 && Targets(PhoneRule, k) && RepairValue(PhoneRule, r1[k]).counted) == {};
  }

  // ------------------------------------------------------------ normalised input

  lemma {:induction false} LowerOfNoUpper(s: string)
    requires NoUpper(s)
    ensures Lower(s) == s
  {
  }

  lemma TrimOfTrimmed(s: string)
    requires IsTrimmed(s)
    ensures Trim(s) == s
  {
  }

  /** An already normalised value goes straight to repair selection. */
  lemma RepairEmailOfNormal(v: string)
    requires v != [] && !IsValidEmail(v) && IsTrimmed(v) && NoUpper(v)
    ensures RepairEmail(v) == Fix(ApplyEmailFix(SelectEmailFix(v), v), SelectEmailFix(v) != NoFix)
  {
    TrimOfTrimmed(v);
    LowerOfNoUpper(v);
  }

  /** The counter counts repair branches, not changes: a normalised value with
      several separate `@` (such as "a@b@c.com") takes repair (c), is counted, and
      is written back unchanged. */
  lemma CountedWithoutChange(v: string)
    requires v != [] && IsTrimmed(v) && NoUpper(v)
    requires CountChar(v, '@') > 1 && '.' in v && NoDoubleAt(v)
    ensures RepairEmail(v) == Fix(v, true)
  {
    if IsValidEmail(v) {
      ValidEmailHasOneAt(v);
    }
    CountCharPositive(v, '@');
    assert SelectEmailFix(v) == RepeatedAt;
    CollapseOfNoDouble(v);
    RepairEmailOfNormal(v);
  }
}
