/** The grammar `Add` checks each rule string against, written character by character
    rather than as a regular expression:

      ss [ws mm [ws hh [ws DD [ws MM [ws YYYY]]]]]

    Fields are numbered 0 (second) to 5 (year). Separators are any single whitespace
    character as the regular-expression class `\s` knows it (tab, newline, form feed,
    carriage return, space), and nothing may follow the last field. */
module RuleGrammar {
  import opened Strings

  /** Number of fields a rule may have: second, minute, hour, day, month, year. */
  const FieldCount: nat := 6

  predicate IsDigit(c: char) {
    '0' <= c <= '9'
  }

  /** The whitespace class `\s`: `[\t\n\f\r ]` (vertical tab is not part of it). */
  predicate IsSpace(c: char) {
    c == '\t' || c == '\n' || c == '\U{000C}' || c == '\r' || c == ' '
  }

  /** Characters in a field: two for second to month, four for the year. */
  function Width(k: nat): nat {
    if k == 5 then 4 else 2
  }

  /** One alternative of the pattern per field position, as the pattern spells them. */
  predicate FieldOk(k: nat, f: string) {
    if k == 0 || k == 1 then
      // [0-5]\d
      |f| == 2 && '0' <= f[0] <= '5' && IsDigit(f[1])
    else if k == 2 then
      // 20|21|22|23|[0-1]\d
      |f| == 2 && ((f[0] == '2' && '0' <= f[1] <= '3') || ('0' <= f[0] <= '1' && IsDigit(f[1])))
    else if k == 3 then
      // 0[1-9]|[1-2][0-9]|3[0-1]
      |f| == 2 && ((f[0] == '0' && '1' <= f[1] <= '9') || ('1' <= f[0] <= '2' && IsDigit(f[1]))
                   || (f[0] == '3' && '0' <= f[1] <= '1'))
    else if k == 4 then
      // 0[1-9]|1[0-2]
      |f| == 2 && ((f[0] == '0' && '1' <= f[1] <= '9') || (f[0] == '1' && '0' <= f[1] <= '2'))
    else if k == 5 then
      // \d{4}
      |f| == 4 && IsDigit(f[0]) && IsDigit(f[1]) && IsDigit(f[2]) && IsDigit(f[3])
    else
      false
  }

  /** What may follow field k - 1: either the end of the string, or a whitespace
      character, field k, and what may follow field k. */
  predicate ValidAfter(s: string, k: nat)
    decreases |s|
  {
    s == [] ||
    (1 <= k < FieldCount && |s| >= 1 + Width(k) && IsSpace(s[0]) && FieldOk(k, s[1..1 + Width(k)])
     && ValidAfter(s[1 + Width(k)..], k + 1))
  }

  /** The rule grammar: a seconds field followed by an optional prefix of the rest. */
  predicate ValidRule(s: string) {
    |s| >= 2 && FieldOk(0, s[..2]) && ValidAfter(s[2..], 1)
  }

  /** A list of fields a rule may consist of: one to six of them, each in range for
      its position. */
  predicate WellFormedFields(fields: seq<string>) {
    1 <= |fields| <= FieldCount && forall k :: 0 <= k < |fields| ==> FieldOk(k, fields[k])
  }

  /** Every whitespace character of `s` is a plain space. */
  predicate SpaceSeparated(s: string) {
    forall i :: 0 <= i < |s| ==> IsSpace(s[i]) ==> s[i] == ' '
  }

  // ---------------------------------------------------------------------------
  // An independent, numeric reading of the field ranges.

  function DigitValue(c: char): int {
    c as int - '0' as int
  }

  predicate AllDigits(f: string) {
    forall i :: 0 <= i < |f| ==> IsDigit(f[i])
  }

  /** The decimal value of a two-digit field. */
  function Value2(f: string): int
    requires |f| == 2
  {
    10 * DigitValue(f[0]) + DigitValue(f[1])
  }

  /** Smallest and largest value of the two-digit fields 0 to 4. */
  function Low(k: nat): int {
    if k == 3 || k == 4 then 1 else 0
  }

  function High(k: nat): int {
    if k <= 1 then 59 else if k == 2 then 23 else if k == 3 then 31 else 12
  }

  /** Each two-digit field is accepted exactly when it is two digits whose value lies
      in its documented range: seconds and minutes 00-59, hours 00-23, day 01-31,
      month 01-12. The year is any four digits. */
  lemma FieldOkMeansInRange(k: nat, f: string)
    requires k < FieldCount
    ensures k < 5 ==>
      (FieldOk(k, f) <==> |f| == 2 && AllDigits(f) && Low(k) <= Value2(f) <= High(k))
    ensures k == 5 ==> (FieldOk(k, f) <==> |f| == 4 && AllDigits(f))
  {
  }

  lemma FieldOkDigits(k: nat, f: string)
    requires FieldOk(k, f)
    ensures |f| == Width(k) && AllDigits(f) && NoSpace(f)
  {
  }

  // ---------------------------------------------------------------------------
  // The grammar read as "fields joined by separators".

  /** Field k onwards, joined by single spaces and preceded by one, may follow field k - 1. */
  lemma {:induction false} JoinValidAfter(fields: seq<string>, k: nat)
    requires 1 <= k && |fields| >= 1 && k + |fields| <= FieldCount
    requires forall j :: 0 <= j < |fields| ==> FieldOk(k + j, fields[j])
    ensures ValidAfter(" " + Join(fields), k)
    decreases |fields|
  {
    var s := " " + Join(fields);
    var w := Width(k);
    FieldOkDigits(k, fields[0]);
    if |fields| == 1 {
      assert s[1..1 + w] == fields[0];
      assert s[1 + w..] == [];
    } else {
      assert Join(fields) == fields[0] + (" " + Join(fields[1..]));
      assert s[1..1 + w] == fields[0];
      assert s[1 + w..] == " " + Join(fields[1..]);
      JoinValidAfter(fields[1..], k + 1);
    }
  }

  lemma JoinIsValid(fields: seq<string>)
    requires WellFormedFields(fields)
    ensures ValidRule(Join(fields))
  {
    var s := Join(fields);
    FieldOkDigits(0, fields[0]);
    if |fields| == 1 {
      assert s[2..] == [];
    } else {
      assert s == fields[0] + (" " + Join(fields[1..]));
      assert s[..2] == fields[0];
      assert s[2..] == " " + Join(fields[1..]);
      JoinValidAfter(fields[1..], 1);
    }
  }

  /** Well-formed fields joined by single spaces form a valid rule that splits back
      into the same fields. */
  lemma JoinedFieldsAreValid(fields: seq<string>)
    requires WellFormedFields(fields)
    ensures ValidRule(Join(fields)) && SpaceSeparated(Join(fields))
    ensures Split(Join(fields)) == fields
  {
    JoinIsValid(fields);
    forall k | 0 <= k < |fields| ensures NoSpace(fields[k]) && AllDigits(fields[k]) {
      FieldOkDigits(k, fields[k]);
    }
    SplitJoin(fields);
    JoinSpaceSeparated(fields);
  }

  lemma {:induction false} JoinSpaceSeparated(fields: seq<string>)
    requires |fields| >= 1
    requires forall k :: 0 <= k < |fields| ==> AllDigits(fields[k])
    ensures SpaceSeparated(Join(fields))
    decreases |fields|
  {
    if |fields| > 1 {
      JoinSpaceSeparated(fields[1..]);
      var s := Join(fields);
      var n := |fields[0]|;
      assert s == fields[0] + " " + Join(fields[1..]);
      forall i | 0 <= i < |s| && IsSpace(s[i]) ensures s[i] == ' ' {
        if i > n {
          assert s[i] == Join(fields[1..])[i - n - 1];
        }
      }
    }
  }

  /** `fields` may stand at positions k onwards of a rule. */
  predicate FieldsFrom(fields: seq<string>, k: nat) {
    k + |fields| <= FieldCount && forall j :: 0 <= j < |fields| ==> FieldOk(k + j, fields[j])
  }

  lemma FieldsFromCons(f: string, tail: seq<string>, k: nat)
    requires FieldOk(k, f) && FieldsFrom(tail, k + 1)
    ensures FieldsFrom([f] + tail, k)
  {
    var parts := [f] + tail;
    forall j | 0 <= j < |parts| ensures FieldOk(k + j, parts[j]) {
      if j > 0 {
        assert parts[j] == tail[j - 1];
      }
    }
  }

  /** What follows field k - 1 in a valid, space-separated rule splits into fields in
      range for positions k onwards. */
  lemma {:induction false} ValidAfterSplits(s: string, k: nat)
    requires ValidAfter(s, k) && s != [] && SpaceSeparated(s)
    ensures s[0] == ' ' && FieldsFrom(Split(s[1..]), k)
    decreases |s|
  {
    var w := Width(k);
    var f, rest := s[1..1 + w], s[1 + w..];
    FieldOkDigits(k, f);
    if rest == [] {
      assert s[1..] == f;
      SplitNoSpace(f);
    } else {
      SpaceSeparatedSuffix(s, 1 + w);
      ValidAfterSplits(rest, k + 1);
      assert s[1..] == f + " " + rest[1..];
      SplitAtFirstSpace(f, rest[1..]);
      FieldsFromCons(f, Split(rest[1..]), k);
    }
  }

  lemma SpaceSeparatedSuffix(s: string, n: nat)
    requires SpaceSeparated(s) && n <= |s|
    ensures SpaceSeparated(s[n..])
  {
    forall i | 0 <= i < |s| - n ensures IsSpace(s[n..][i]) ==> s[n..][i] == ' ' {
      assert s[n..][i] == s[n + i];
    }
  }

  /** A valid rule written with plain spaces splits into well-formed fields, and is
      exactly their join. With `JoinedFieldsAreValid` this shows that the space-separated
      valid rules are exactly the joins of well-formed field lists. */
  lemma ValidRuleSplits(s: string)
    requires ValidRule(s) && SpaceSeparated(s)
    ensures WellFormedFields(Split(s))
    ensures Join(Split(s)) == s
  {
    var f := s[..2];
    FieldOkDigits(0, f);
    JoinSplit(s);
    if |s| == 2 {
      assert s == f;
      SplitNoSpace(f);
    } else {
      var rest := s[2..];
      SpaceSeparatedSuffix(s, 2);
      ValidAfterSplits(rest, 1);
      assert s == f + " " + rest[1..];
      SplitAtFirstSpace(f, rest[1..]);
    }
  }

  // ---------------------------------------------------------------------------
  // Field counts, whatever the separators.

  /** At most 6 - k further fields, hence at most 6 - k spaces, may follow field k - 1. */
  lemma {:induction false} ValidAfterSpaces(s: string, k: nat)
    requires ValidAfter(s, k)
    ensures s != [] ==> k < FieldCount && Spaces(s) <= FieldCount - k
    decreases |s|
  {
    if s != [] {
      var w := Width(k);
      var f, rest := s[1..1 + w], s[1 + w..];
      FieldOkDigits(k, f);
      ValidAfterSpaces(rest, k + 1);
      assert s == [s[0]] + (f + rest);
      SpacesConcat([s[0]], f + rest);
      SpacesConcat(f, rest);
      NoSpaceCount(f);
    }
  }

  /** A rule that passes the grammar splits on " " into one to six fields; fewer than
      its separators when some of them are not plain spaces. */
  lemma ValidRuleFieldCount(s: string)
    requires ValidRule(s)
    ensures 1 <= |Split(s)| <= FieldCount
  {
    ValidAfterSpaces(s[2..], 1);
    SplitCount(s);
    assert s == s[..2] + s[2..];
    FieldOkDigits(0, s[..2]);
    SpacesConcat(s[..2], s[2..]);
    NoSpaceCount(s[..2]);
  }

  /** One step of the grammar, read at offset p of a larger string. */
  lemma ValidAfterAt(s: string, p: nat, k: nat)
    requires p <= |s|
    ensures ValidAfter(s[p..], k) <==>
      p == |s| ||
      (1 <= k < FieldCount && p + 1 + Width(k) <= |s| && IsSpace(s[p]) &&
       FieldOk(k, s[p + 1..p + 1 + Width(k)]) && ValidAfter(s[p + 1 + Width(k)..], k + 1))
  {
    var w := Width(k);
    if p + 1 + w <= |s| {
      assert s[p..][1..1 + w] == s[p + 1..p + 1 + w];
      assert s[p..][1 + w..] == s[p + 1 + w..];
    }
  }

  /** The grammar read by position: a rule of n fields is 3 * n - 1 characters long
      (19 with the year), field k starts at offset 3 * k and is preceded by a
      whitespace character. */
  predicate Layout(s: string) {
    (|s| == 2 || |s| == 5 || |s| == 8 || |s| == 11 || |s| == 14 || |s| == 19) &&
    FieldOk(0, s[..2]) &&
    (|s| >= 5 ==> IsSpace(s[2]) && FieldOk(1, s[3..5])) &&
    (|s| >= 8 ==> IsSpace(s[5]) && FieldOk(2, s[6..8])) &&
    (|s| >= 11 ==> IsSpace(s[8]) && FieldOk(3, s[9..11])) &&
    (|s| >= 14 ==> IsSpace(s[11]) && FieldOk(4, s[12..14])) &&
    (|s| == 19 ==> IsSpace(s[14]) && FieldOk(5, s[15..19]))
  }

  /** The nested, left-to-right grammar and the positional reading accept the same
      strings. */
  lemma ValidRuleIffLayout(s: string)
    ensures ValidRule(s) <==> Layout(s)
  {
    if |s| >= 2 {
      ValidAfterAt(s, |s|, 6);
      if |s| >= 14 { ValidAfterAt(s, 14, 5); }
      if |s| >= 11 { ValidAfterAt(s, 11, 4); }
      if |s| >= 8 { ValidAfterAt(s, 8, 3); }
      if |s| >= 5 { ValidAfterAt(s, 5, 2); }
      ValidAfterAt(s, 2, 1);
    }
  }
}

