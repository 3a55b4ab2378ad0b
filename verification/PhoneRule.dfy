/**
 The expression of the default phone rule of pkg/log/masker.go, 1[3-9]\d{9}, written out,
 and a text that the default rules do not settle in one round.
 */
module PhoneRule {
  import opened Masker

  const ZERO: byte := 48
  const ONE: byte := 49
  const THREE: byte := 51
  const NINE: byte := 57

  predicate IsDigit(b: byte) {
    ZERO <= b <= NINE
  }

  predicate PhoneAt(s: Text, i: nat) {
    i + 11 <= |s| && s[i] == ONE && THREE <= s[i + 1] <= NINE &&
    forall j :: i + 2 <= j < i + 11 ==> IsDigit(s[j])
  }

  /** The leftmost matches from i on that do not overlap. */
  function PhoneMatches(s: Text, i: nat): seq<Range>
    decreases |s| - i
  {
    if i + 11 > |s| then []
    else if PhoneAt(s, i) then [Range(i, i + 11)] + PhoneMatches(s, i + 11)
    else PhoneMatches(s, i + 1)
  }

  function Phone(): Text -> seq<Range> {
    s => PhoneMatches(s, 0)
  }

  lemma {:induction false} PhoneOrdered(s: Text, i: nat, from: nat)
    requires from <= i && from <= |s|
    ensures Ordered(PhoneMatches(s, i), from, |s|)
    decreases |s| - i
  {
    if i + 11 <= |s| {
      if PhoneAt(s, i) {
        var rest := PhoneMatches(s, i + 11);
        PhoneOrdered(s, i + 11, i + 11);
        assert ([Range(i, i + 11)] + rest)[1..] == rest;
      } else {
        PhoneOrdered(s, i + 1, from);
      }
    }
  }

  /** Every match begins with at least fifteen digits, as those of \d{17}[\dXx]|\d{15} and of
      \d{16,19} do. */
  ghost predicate Numeric(matches: Text -> seq<Range>) {
    forall s: Text, r :: r in matches(s) ==>
      r.start + 15 <= r.end <= |s| && forall i :: r.start <= i < r.start + 15 ==> IsDigit(s[i])
  }

  /** Every match holds an at sign, as those of [\w.-]+@[\w.-]+\.\w+ do. */
  ghost predicate Addresses(matches: Text -> seq<Range>) {
    forall s: Text, r :: r in matches(s) ==>
      r.start <= r.end <= |s| && exists i :: r.start <= i < r.end && s[i] == AT_SIGN
  }

  lemma {:induction false} SkipTo(s: Text, i: nat, j: nat)
    requires i <= j && forall k :: i <= k < j ==> !PhoneAt(s, k)
    ensures PhoneMatches(s, i) == PhoneMatches(s, j)
    decreases j - i
  {
    if i < j && i + 11 <= |s| { SkipTo(s, i + 1, j); }
  }

  lemma {:induction false} MatchesArePhones(s: Text, i: nat)
    ensures forall r :: r in PhoneMatches(s, i) ==> i <= r.start && r.end == r.start + 11 && PhoneAt(s, r.start)
    decreases |s| - i
  {
    if i + 11 <= |s| {
      if PhoneAt(s, i) { MatchesArePhones(s, i + 11); } else { MatchesArePhones(s, i + 1); }
    }
  }

  /** A one, a digit from three to nine, and nine digits more. */
  lemma PhoneAtIff(s: Text, i: nat)
    ensures PhoneAt(s, i) <==>
            i + 11 <= |s| && s[i] == 49 && 51 <= s[i + 1] <= 57 &&
            forall j :: i + 2 <= j < i + 11 ==> 48 <= s[j] <= 57
  {
  }

  /** The matches are the leftmost ones: each begins with a number, and every number begins in
      one of them. */
  lemma {:induction false} EveryNumberIsCovered(s: Text, i: nat, j: nat)
    requires i <= j && PhoneAt(s, j)
    ensures exists r :: r in PhoneMatches(s, i) && r.start <= j < r.end
    decreases |s| - i
  {
    if PhoneAt(s, i) {
      var rest := PhoneMatches(s, i + 11);
      assert PhoneMatches(s, i) == [Range(i, i + 11)] + rest;
      if j < i + 11 {
        assert Range(i, i + 11) in PhoneMatches(s, i);
      } else {
        EveryNumberIsCovered(s, i + 11, j);
        var r :| r in rest && r.start <= j < r.end;
        assert r in PhoneMatches(s, i);
      }
    } else {
      EveryNumberIsCovered(s, i + 1, j);
    }
  }

  lemma {:induction false} NoMatchesIff(s: Text, i: nat)
    ensures PhoneMatches(s, i) == [] <==> forall j: nat :: i <= j ==> !PhoneAt(s, j)
    decreases |s| - i
  {
    if i + 11 <= |s| && !PhoneAt(s, i) {
      NoMatchesIff(s, i + 1);
      assert (forall j: nat :: i <= j ==> !PhoneAt(s, j)) <==> (forall j: nat :: i + 1 <= j ==> !PhoneAt(s, j));
    }
  }

  // ------------------------------------------------- what the phone rule leaves

  function PhoneRuleFor(c: byte): Rule {
    Rule(Phone(), PhoneMask(c))
  }

  /** Position k is one of the four that some match hides. */
  ghost predicate Hidden(s: Text, k: int) {
    exists r :: r in PhoneMatches(s, 0) && r.start + 3 <= k < r.start + 7
  }

  /** A number at j, matched or overlapped by a match, meets a stretch that is hidden. */
  ghost predicate MeetsHidden(s: Text, j: int) {
    exists r :: r in PhoneMatches(s, 0) && r.start < j + 8 && j < r.start + 7
  }

  lemma MaskedPhone(s: Text, c: byte, k: nat)
    requires |s| == 11 && k < 11
    ensures |MaskPhone(s, c)| == 11 && MaskPhone(s, c)[k] == if 3 <= k < 7 then c else s[k]
  {
    PhoneRedacts(s, c);
  }

  /** The mask character stands exactly on the hidden positions. */
  lemma PassAt(s: Text, c: byte, k: nat)
    requires k < |s|
    ensures WellMatched(PhoneRuleFor(c))
    ensures var t := Apply(PhoneRuleFor(c), s); |t| == |s| && t[k] == if Hidden(s, k) then c else s[k]
  {
    hide PhoneMatches, Ordered, MasksRedact, Redacts, Replaced, Inside, MaskPhone;
    PhoneIsWellMatched(c);
    var ranges, mask := PhoneMatches(s, 0), PhoneMask(c);
    assert PhoneRuleFor(c).matches(s) == ranges;
    assert Ordered(ranges, 0, |s|) && MasksRedact(s, ranges, mask, c);
    ReplacedLength(s, ranges, mask, 0, c);
    MatchesArePhones(s, 0);
    if Hidden(s, k) {
      var r :| r in ranges && r.start + 3 <= k < r.start + 7;
      PassInside(s, c, k, r);
    } else if Inside(ranges, k) {
      var r := RangeAround(ranges, k);
      PassInside(s, c, k, r);
    } else {
      ReplacedLeaves(s, ranges, mask, 0, c, k);
    }
  }

  lemma PassInside(s: Text, c: byte, k: nat, r: Range)
    requires Ordered(PhoneMatches(s, 0), 0, |s|) && MasksRedact(s, PhoneMatches(s, 0), PhoneMask(c), c)
    requires r in PhoneMatches(s, 0) && r.start <= k < r.end <= |s| && r.end == r.start + 11
    ensures var t := Replaced(s, PhoneMatches(s, 0), PhoneMask(c), 0);
            |t| == |s| && t[k] == if 3 <= k - r.start < 7 then c else s[k]
  {
    hide PhoneMatches, Ordered, MasksRedact, Replaced, MaskPhone;
    var t := Replaced(s, PhoneMatches(s, 0), PhoneMask(c), 0);
    ReplacedAtRange(s, PhoneMatches(s, 0), PhoneMask(c), c, r);
    assert t[k] == t[r.start..r.end][k - r.start];
    MaskedPhone(s[r.start..r.end], c, k - r.start);
  }

  /** After the pass a number stands where one stood and meets nothing hidden. */
  lemma PhoneAfterPass(s: Text, c: byte, j: nat)
    requires !IsDigit(c)
    ensures WellMatched(PhoneRuleFor(c))
    ensures PhoneAt(Apply(PhoneRuleFor(c), s), j) <==> PhoneAt(s, j) && !MeetsHidden(s, j)
  {
    PhoneIsWellMatched(c);
    hide Apply, PhoneMatches, WellMatched;
    var t := Apply(PhoneRuleFor(c), s);
    if j + 11 <= |s| {
      forall k: nat | k < |s| ensures |t| == |s| && t[k] == if Hidden(s, k) then c else s[k] { PassAt(s, c, k); }
      MeetsIffHidden(s, j);
      hide Hidden, MeetsHidden;
      PhoneIsDigits(t, j);
      PhoneIsDigits(s, j);
      if forall k :: j <= k < j + 11 ==> !Hidden(s, k) {
        assert forall k :: j <= k < j + 11 ==> t[k] == s[k];
      } else {
        var k :| j <= k < j + 11 && Hidden(s, k);
        assert t[k] == c;
      }
    } else {
      PassLength(s, c);
    }
  }

  lemma PassLength(s: Text, c: byte)
    ensures WellMatched(PhoneRuleFor(c)) && |Apply(PhoneRuleFor(c), s)| == |s|
  {
    PhoneIsWellMatched(c);
    ApplyRedacts(PhoneRuleFor(c), s, c);
  }

  lemma PhoneIsDigits(s: Text, j: nat)
    ensures PhoneAt(s, j) ==> j + 11 <= |s| && forall k :: j <= k < j + 11 ==> IsDigit(s[k])
  {
  }

  lemma MeetsIffHidden(s: Text, j: nat)
    ensures MeetsHidden(s, j) <==> exists k :: j <= k < j + 11 && Hidden(s, k)
  {
    hide PhoneMatches;
    if MeetsHidden(s, j) {
      var r :| r in PhoneMatches(s, 0) && r.start < j + 8 && j < r.start + 7;
      var k := if j < r.start + 3 then r.start + 3 else j;
      assert Hidden(s, k);
    }
    if k :| j <= k < j + 11 && Hidden(s, k) {
      var r :| r in PhoneMatches(s, 0) && r.start + 3 <= k < r.start + 7;
      assert MeetsHidden(s, j);
    }
  }

  /** The pass hides a part of every number. */
  ghost predicate AllMeetHidden(s: Text) {
    forall j: nat :: PhoneAt(s, j) ==> MeetsHidden(s, j)
  }

  /** A text is left alone if and only if no number stands in it. */
  lemma LeftAloneIff(t: Text, c: byte)
    requires !IsDigit(c)
    ensures WellMatched(PhoneRuleFor(c))
    ensures Apply(PhoneRuleFor(c), t) == t <==> forall j: nat :: !PhoneAt(t, j)
  {
    PhoneIsWellMatched(c);
    hide PhoneMatches, Apply, WellMatched;
    NoMatchesIff(t, 0);
    MatchesArePhones(t, 0);
    if PhoneMatches(t, 0) == [] {
      assert PhoneRuleFor(c).matches(t) == [];
      NoMatch(PhoneRuleFor(c), t);
    } else {
      var r := PhoneMatches(t, 0)[0];
      assert r in PhoneMatches(t, 0);
      PhoneIsDigits(t, r.start);
      assert Hidden(t, r.start + 3);
      PassAt(t, c, r.start + 3);
    }
  }

  /** The phone rule settles a text in one pass if and only if every number in it, overlapping
      ones included, meets a stretch that the pass hides. */
  lemma PhoneSettlesIff(s: Text, c: byte)
    requires !IsDigit(c)
    ensures WellMatched(PhoneRuleFor(c))
    ensures var t := Apply(PhoneRuleFor(c), s);
            Apply(PhoneRuleFor(c), t) == t <==> AllMeetHidden(s)
  {
    PhoneIsWellMatched(c);
    hide Apply, WellMatched, PhoneAt, MeetsHidden;
    var t := Apply(PhoneRuleFor(c), s);
    LeftAloneIff(t, c);
    forall j: nat ensures PhoneAt(t, j) <==> PhoneAt(s, j) && !MeetsHidden(s, j) { PhoneAfterPass(s, c, j); }
  }

  // ------------------------------------------------- and all default rules

  /** 138000013900000000: two overlapping phone numbers. */
  const OVERLAPPING: Text := [49, 51, 56, 48, 48, 48, 48, 49, 51, 57, 48, 48, 48, 48, 48, 48, 48, 48]

  function AfterOne(c: byte): Text {
    [49, 51, 56, c, c, c, c, 49, 51, 57, 48, 48, 48, 48, 48, 48, 48, 48]
  }

  function AfterTwo(c: byte): Text {
    [49, 51, 56, c, c, c, c, 49, 51, 57, c, c, c, c, 48, 48, 48, 48]
  }

  lemma FirstRound(c: byte)
    ensures PhoneMatches(OVERLAPPING, 0) == [Range(0, 11)]
    ensures Ordered([Range(0, 11)], 0, 18)
    ensures Replaced(OVERLAPPING, [Range(0, 11)], PhoneMask(c), 0) == AfterOne(c)
  {
    var s := OVERLAPPING;
    assert PhoneAt(s, 0) && PhoneMatches(s, 11) == [];
    hide PhoneMatches, PhoneAt, Replaced;
    OneRange(s, 0, 11, PhoneMask(c));
    var phone := s[0..11];
    assert phone == [49, 51, 56, 48, 48, 48, 48, 49, 51, 57, 48];
    assert MaskPhone(phone, c) == [49, 51, 56, c, c, c, c, 49, 51, 57, 48];
  }

  lemma NotBeforeSeven(c: byte)
    requires !IsDigit(c)
    ensures forall k :: 0 <= k < 7 ==> !PhoneAt(AfterOne(c), k)
  {
    var s := AfterOne(c);
    assert s[3] == s[4] == s[5] == s[6] == c && s[1] == 51 && s[2] == 56;
  }

  lemma SecondRound(c: byte)
    requires !IsDigit(c)
    ensures PhoneMatches(AfterOne(c), 0) == [Range(7, 18)]
    ensures Ordered([Range(7, 18)], 0, 18)
    ensures Replaced(AfterOne(c), [Range(7, 18)], PhoneMask(c), 0) == AfterTwo(c)
  {
    var s := AfterOne(c);
    NotBeforeSeven(c);
    SkipTo(s, 0, 7);
    assert PhoneAt(s, 7) && PhoneMatches(s, 18) == [];
    hide PhoneMatches, PhoneAt, Replaced;
    OneRange(s, 7, 18, PhoneMask(c));
    var phone := s[7..18];
    assert phone == [49, 51, 57, 48, 48, 48, 48, 48, 48, 48, 48];
    assert MaskPhone(phone, c) == [49, 51, 57, c, c, c, c, 48, 48, 48, 48];
  }

  lemma OneRange(s: Text, i: nat, j: nat, mask: Text -> Text)
    requires i <= j <= |s|
    ensures Ordered([Range(i, j)], 0, |s|)
    ensures Replaced(s, [Range(i, j)], mask, 0) == s[..i] + mask(s[i..j]) + s[j..]
  {
    var rs := [Range(i, j)];
    assert rs[1..] == [] && s[0..i] == s[..i];
    assert Ordered([], j, |s|) && Replaced(s, [], mask, j) == s[j..];
  }

  ghost predicate DigitRun(s: Text, i: nat) {
    i + 15 <= |s| && forall j :: i <= j < i + 15 ==> IsDigit(s[j])
  }

  /** Without fifteen digits in a row and without an at sign the other rules find nothing. */
  ghost predicate OnlyPhones(s: Text) {
    (forall i: nat :: !DigitRun(s, i)) && forall i :: 0 <= i < |s| ==> s[i] != AT_SIGN
  }

  lemma NumericReaches(s: Text, matches: Text -> seq<Range>)
    requires Numeric(matches)
    ensures matches(s) != [] ==> exists i: nat :: DigitRun(s, i)
  {
    if matches(s) != [] {
      var r := matches(s)[0];
      assert r in matches(s);
      assert DigitRun(s, r.start);
    }
  }

  lemma OthersLeave(s: Text, matches: Text -> seq<Range>)
    requires OnlyPhones(s) && (Numeric(matches) || Addresses(matches))
    ensures matches(s) == []
  {
    if Numeric(matches) {
      NumericReaches(s, matches);
    } else {
      AddressHasSign(s, matches);
    }
  }

  lemma AddressHasSign(s: Text, matches: Text -> seq<Range>)
    requires Addresses(matches)
    ensures matches(s) != [] ==> exists i :: 0 <= i < |s| && s[i] == AT_SIGN
  {
    if matches(s) != [] {
      var r := matches(s)[0];
      assert r in matches(s);
      var i :| r.start <= i < r.end && s[i] == AT_SIGN;
      assert 0 <= i < |s|;
    }
  }

  lemma AfterOneOnlyPhones(c: byte)
    requires !IsDigit(c) && c != AT_SIGN
    ensures OnlyPhones(AfterOne(c)) && OnlyPhones(AfterTwo(c))
  {
    FourthIsNone(AfterOne(c));
    FourthIsNone(AfterTwo(c));
  }

  lemma FourthIsNone(s: Text)
    requires |s| == 18 && !IsDigit(s[3])
    ensures forall i: nat :: !DigitRun(s, i)
  {
  }

  /** Masking more makes no digit and no at sign. */
  lemma StillOnlyPhones(s: Text, t: Text, c: byte)
    requires OnlyPhones(s) && Redacts(s, t, c) && !IsDigit(c) && c != AT_SIGN
    ensures OnlyPhones(t)
  {
    forall i: nat ensures !DigitRun(t, i) {
      assert !DigitRun(s, i);
      if i + 15 <= |s| {
        var j :| i <= j < i + 15 && !IsDigit(s[j]);
        assert !IsDigit(t[j]);
      }
    }
  }

  lemma NoMatch(rule: Rule, s: Text)
    requires WellMatched(rule) && rule.matches(s) == []
    ensures Apply(rule, s) == s
  {
  }

  /** One round of the default rules on a text of which the phone rule makes t. */
  lemma OnePass(c: byte, idCard: Text -> seq<Range>, email: Text -> seq<Range>, bankCard: Text -> seq<Range>,
                s: Text, t: Text)
    requires AllWellMatched(DefaultRules(c, Phone(), idCard, email, bankCard))
    requires Numeric(idCard) && Addresses(email) && Numeric(bankCard) && OnlyPhones(t)
    requires WellMatched(PhoneRuleFor(c)) && Apply(PhoneRuleFor(c), s) == t
    ensures Mask(DefaultRules(c, Phone(), idCard, email, bankCard), s) == t
  {
    hide Apply, Numeric, Addresses, OnlyPhones, WellMatched;
    var rules := DefaultRules(c, Phone(), idCard, email, bankCard);
    assert WellMatched(rules[0]) && WellMatched(rules[1]) && WellMatched(rules[2]) && WellMatched(rules[3]);
    OthersLeave(t, idCard);
    OthersLeave(t, email);
    OthersLeave(t, bankCard);
    NoMatch(rules[1], t);
    NoMatch(rules[2], t);
    NoMatch(rules[3], t);
    assert rules[1..][0] == rules[1] && rules[2..][0] == rules[2] && rules[3..][0] == rules[3];
    assert rules[1..][1..] == rules[2..] && rules[2..][1..] == rules[3..] && rules[3..][1..] == [];
    assert Mask(rules[3..], t) == Mask([], t) == t;
    assert Mask(rules[2..], t) == Mask(rules[3..], t);
    assert Mask(rules[1..], t) == Mask(rules[2..], t);
    assert rules[0] == PhoneRuleFor(c);
  }

  /** The default rules settle a text in one round, when its phone numbers masked it holds no
      fifteen digits in a row and no at sign, if and only if every number in it meets a
      stretch that the phone rule hides. */
  lemma DefaultRulesSettleIff(c: byte, idCard: Text -> seq<Range>, email: Text -> seq<Range>,
                              bankCard: Text -> seq<Range>, s: Text)
    requires !IsDigit(c) && c != AT_SIGN
    requires AllWellMatched(DefaultRules(c, Phone(), idCard, email, bankCard))
    requires Numeric(idCard) && Addresses(email) && Numeric(bankCard)
    requires WellMatched(PhoneRuleFor(c)) && OnlyPhones(Apply(PhoneRuleFor(c), s))
    ensures var rules := DefaultRules(c, Phone(), idCard, email, bankCard);
            Mask(rules, Mask(rules, s)) == Mask(rules, s) <==> AllMeetHidden(s)
  {
    hide Numeric, Addresses, OnlyPhones, Mask, AllWellMatched, Apply, AllMeetHidden, WellMatched, Redacting, Redacts, PhoneRuleFor;
    PhoneSettlesIff(s, c);
    var t := Apply(PhoneRuleFor(c), s);
    var u := Apply(PhoneRuleFor(c), t);
    PassRedacts(t, c);
    StillOnlyPhones(t, u, c);
    OnePass(c, idCard, email, bankCard, s, t);
    OnePass(c, idCard, email, bankCard, t, u);
  }

  lemma PassRedacts(s: Text, c: byte)
    ensures WellMatched(PhoneRuleFor(c)) && Redacts(s, Apply(PhoneRuleFor(c), s), c)
  {
    PhoneIsWellMatched(c);
    ApplyRedacts(PhoneRuleFor(c), s, c);
  }

  lemma PhoneRounds(c: byte)
    requires !IsDigit(c)
    ensures WellMatched(PhoneRuleFor(c))
    ensures Apply(PhoneRuleFor(c), OVERLAPPING) == AfterOne(c) && Apply(PhoneRuleFor(c), AfterOne(c)) == AfterTwo(c)
  {
    hide Replaced, PhoneMatches, Ordered, WellMatched;
    PhoneIsWellMatched(c);
    FirstRound(c);
    SecondRound(c);
  }

  /** The default rules mask this text in two rounds and not in one: the first leaves a phone
      number that the first match had overlapped. */
  lemma DefaultRulesNeedTwoRounds(c: byte, idCard: Text -> seq<Range>, email: Text -> seq<Range>,
                                  bankCard: Text -> seq<Range>)
    requires !IsDigit(c) && c != AT_SIGN
    requires AllWellMatched(DefaultRules(c, Phone(), idCard, email, bankCard))
    requires Numeric(idCard) && Addresses(email) && Numeric(bankCard)
    ensures var rules := DefaultRules(c, Phone(), idCard, email, bankCard);
            Mask(rules, OVERLAPPING) == AfterOne(c) && Mask(rules, AfterOne(c)) == AfterTwo(c) != AfterOne(c)
    ensures !AllMeetHidden(OVERLAPPING)
  {
    hide Numeric, Addresses, OnlyPhones, Mask, AllWellMatched, Apply, AllMeetHidden, WellMatched;
    PhoneRounds(c);
    AfterOneOnlyPhones(c);
    PhoneSettlesIff(OVERLAPPING, c);
    OnePass(c, idCard, email, bankCard, OVERLAPPING, AfterOne(c));
    OnePass(c, idCard, email, bankCard, AfterOne(c), AfterTwo(c));
    assert AfterTwo(c)[10] == c && AfterOne(c)[10] == 48;
  }

  /** The matcher written out is one the laws of redaction apply to. */
  lemma PhoneIsWellMatched(c: byte)
    ensures Redacting(Rule(Phone(), PhoneMask(c)), c)
  {
    hide PhoneMatches, Ordered, Redacting;
    forall s: Text ensures Ordered(Phone()(s), 0, |s|) { PhoneOrdered(s, 0, 0); }
    PhoneRuleRedacts(Phone(), c);
  }
}
