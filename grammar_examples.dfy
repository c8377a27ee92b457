/** Concrete rules run through the grammar: the examples documented with `Add`, the
    ranges it refuses, and the tab-separated rule that passes the grammar but is not
    split into fields, so it never matches. The proofs go through the positional
    reading `Layout`, which spares the solver from unfolding the nested grammar over a
    literal string. */
module GrammarExamples {
  import opened Strings
  import opened RuleGrammar
  import opened Matcher

  /** Every minute, at second 00. */
  lemma EveryMinuteRule()
    ensures ValidRule("00")
  {
    ValidRuleIffLayout("00");
  }

  /** Every day at 08:30:00. */
  lemma DailyRule()
    ensures ValidRule("00 30 08")
  {
    var s := "00 30 08";
    assert s[..2] == "00" && s[3..5] == "30" && s[6..8] == "08";
    ValidRuleIffLayout(s);
  }

  /** The single instant 2021-09-14 08:30:05. */
  lemma InstantRule()
    ensures ValidRule("05 30 08 14 09 2021")
  {
    var s := "05 30 08 14 09 2021";
    assert s[..2] == "05";
    assert s[3..5] == "30";
    assert s[6..8] == "08";
    assert s[9..11] == "14";
    assert s[12..14] == "09";
    assert s[15..19] == "2021";
    ValidRuleIffLayout(s);
  }

  /** Second 60 is out of range. */
  lemma SecondOutOfRange()
    ensures !ValidRule("60")
  {
    ValidRuleIffLayout("60");
  }

  /** Hour 24 is out of range. */
  lemma HourOutOfRange()
    ensures !ValidRule("00 00 24")
  {
    var s := "00 00 24";
    assert s[6..8] == "24";
    ValidRuleIffLayout(s);
  }

  /** Day 32 is out of range. */
  lemma DayOutOfRange()
    ensures !ValidRule("00 00 00 32")
  {
    var s := "00 00 00 32";
    assert s[9..11] == "32";
    ValidRuleIffLayout(s);
  }

  /** Month 13 is out of range. */
  lemma MonthOutOfRange()
    ensures !ValidRule("00 00 00 00 13")
  {
    var s := "00 00 00 00 13";
    assert s[12..14] == "13";
    ValidRuleIffLayout(s);
  }

  /** A doubled separator leaves a gap where the minute should be. */
  lemma GapRefused()
    ensures !ValidRule("05  30")
  {
    var s := "05  30";
    assert s[3..5] == " 3";
    ValidRuleIffLayout(s);
  }

  /** Nothing may follow the year. */
  lemma SeventhFieldRefused()
    ensures !ValidRule("05 30 08 14 09 2021 01")
  {
    ValidRuleIffLayout("05 30 08 14 09 2021 01");
  }

  /** A rule whose fields are separated by a tab passes the grammar, but splitting it on
      " " leaves a single field holding the tab. */
  lemma TabSeparatedRuleIsOneField()
    ensures ValidRule("05\t30")
    ensures Split("05\t30") == ["05\t30"]
  {
    var s := "05\t30";
    assert s[..2] == "05" && s[3..5] == "30";
    ValidRuleIffLayout(s);
    SplitNoSpace(s);
  }

  /** The rule Add stores for the tab-separated "05\t30" is one five-character field,
      which never equals a two-character second. */
  lemma TabSeparatedRuleNeverMatches(now: seq<string>)
    requires |now| == FieldCount && |now[0]| == 2
    ensures !RuleMatches(Split("05\t30"), now)
  {
    TabSeparatedRuleIsOneField();
    assert |Split("05\t30")[0]| == 5;
  }
}
