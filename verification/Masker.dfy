/**
 The redactor of pkg/log/masker.go, on bytes.  A rule's regular expression is a parameter:
 all that is used of it is that it yields ordered ranges that do not overlap.  The mask
 character is a single byte.
 */
module Masker {
  import opened Prelude

  newtype byte = x: int | 0 <= x < 256

  type Text = seq<byte>

  const AT_SIGN: byte := 64

  function Repeat(c: byte, n: nat): Text {
    seq(n, i => c)
  }

  function IndexOf(s: Text, b: byte): (i: nat)
    ensures i <= |s| && (i < |s| ==> s[i] == b)
    ensures forall j :: 0 <= j < i ==> s[j] != b
  {
    if s == [] || s[0] == b then 0 else 1 + IndexOf(s[1..], b)
  }

  /** Converting one byte to a string yields its UTF-8 encoding: two bytes from 0x80 on. */
  function AsString(b: byte): Text {
    if b < 0x80 then [b] else [0xC0 + b / 64, 0x80 + b % 64]
  }

  // ------------------------------------------------- the mask functions

  function MaskAll(s: Text, c: byte): Text {
    Repeat(c, |s|)
  }

  function MaskPhone(s: Text, c: byte): Text {
    if |s| != 11 then MaskAll(s, c) else s[..3] + Repeat(c, 4) + s[7..]
  }

  /** Identity cards and bank cards alike. */
  function MaskCard(s: Text, c: byte): Text {
    if |s| < 10 then MaskAll(s, c) else s[..6] + Repeat(c, |s| - 10) + s[|s| - 4..]
  }

  function MaskEmail(s: Text, c: byte): Text {
    var at := IndexOf(s, AT_SIGN);
    if at == 0 || at == |s| then MaskAll(s, c)
    else AsString(s[0]) + Repeat(c, at - 1) + s[at..]
  }

  // ------------------------------------------------- applying one rule

  datatype Range = Range(start: nat, end: nat)

  datatype Rule = Rule(matches: Text -> seq<Range>, mask: Text -> Text)

  ghost predicate Ordered(ranges: seq<Range>, from: nat, n: nat)
    decreases |ranges|
  {
    if ranges == [] then from <= n
    else from <= ranges[0].start <= ranges[0].end <= n && Ordered(ranges[1..], ranges[0].end, n)
  }

  /** s from `from` on, with the text of each range replaced. */
  function Replaced(s: Text, ranges: seq<Range>, mask: Text -> Text, from: nat): Text
    requires Ordered(ranges, from, |s|)
    decreases |ranges|
  {
    if ranges == [] then s[from..]
    else s[from..ranges[0].start] + mask(s[ranges[0].start..ranges[0].end]) +
         Replaced(s, ranges[1..], mask, ranges[0].end)
  }

  ghost predicate WellMatched(rule: Rule) {
    forall s: Text :: Ordered(rule.matches(s), 0, |s|)
  }

  function Apply(rule: Rule, s: Text): Text
    requires WellMatched(rule)
  {
    Replaced(s, rule.matches(s), rule.mask, 0)
  }

  ghost predicate AllWellMatched(rules: seq<Rule>) {
    forall i :: 0 <= i < |rules| ==> WellMatched(rules[i])
  }

  function Mask(rules: seq<Rule>, s: Text): Text
    requires AllWellMatched(rules)
    decreases |rules|
  {
    if |rules| == 0 then s else Mask(rules[1..], Apply(rules[0], s))
  }

  class DefaultMasker {
    var rules: seq<Rule>
    const maskChar: byte

    ghost predicate Valid()
      reads this
    {
      AllWellMatched(rules)
    }

    /** The four default rules, in order, over the matchers of their expressions. */
    constructor (maskChar: byte, phone: Text -> seq<Range>, idCard: Text -> seq<Range>,
                 email: Text -> seq<Range>, bankCard: Text -> seq<Range>)
      ensures rules == DefaultRules(maskChar, phone, idCard, email, bankCard) && this.maskChar == maskChar
    {
      this.maskChar := maskChar;
      rules := DefaultRules(maskChar, phone, idCard, email, bankCard);
    }

    /** `compiled` is what compiling the pattern yields: a matcher, or None if it is malformed. */
    method AddRule(compiled: Option<Text -> seq<Range>>, maskFunc: Text -> Text) returns (ok: bool)
      modifies this
      ensures ok == compiled.Some?
      ensures rules == if ok then old(rules) + [Rule(compiled.value, maskFunc)] else old(rules)
    {
      if compiled.None? {
        return false;
      }
      rules := rules + [Rule(compiled.value, maskFunc)];
      return true;
    }

    method MaskText(s: Text) returns (result: Text)
      requires Valid()
      ensures result == Mask(rules, s)
    {
      result := s;
      for i := 0 to |rules|
        invariant Mask(rules[i..], result) == Mask(rules, s)
      {
        assert rules[i..][1..] == rules[i + 1..];
        result := Apply(rules[i], result);
      }
    }
  }

  function DefaultRules(c: byte, phone: Text -> seq<Range>, idCard: Text -> seq<Range>,
                        email: Text -> seq<Range>, bankCard: Text -> seq<Range>): seq<Rule> {
    [Rule(phone, PhoneMask(c)), Rule(idCard, CardMask(c)), Rule(email, EmailMask(c)), Rule(bankCard, CardMask(c))]
  }

  function PhoneMask(c: byte): Text -> Text {
    s => MaskPhone(s, c)
  }

  function CardMask(c: byte): Text -> Text {
    s => MaskCard(s, c)
  }

  function EmailMask(c: byte): Text -> Text {
    s => MaskEmail(s, c)
  }

  // ------------------------------------------------- redaction

  /** Same length, and every byte is the original one or the mask character. */
  ghost predicate Redacts(s: Text, t: Text, c: byte) {
    |t| == |s| && forall i :: 0 <= i < |s| ==> t[i] == s[i] || t[i] == c
  }

  lemma PhoneRedacts(s: Text, c: byte)
    ensures Redacts(s, MaskPhone(s, c), c)
    ensures |s| == 11 ==> forall i :: 0 <= i < 11 ==> MaskPhone(s, c)[i] == if 3 <= i < 7 then c else s[i]
    ensures |s| != 11 ==> forall i :: 0 <= i < |s| ==> MaskPhone(s, c)[i] == c
  {
  }

  lemma CardRedacts(s: Text, c: byte)
    ensures Redacts(s, MaskCard(s, c), c)
    ensures forall i :: 0 <= i < |s| && 10 <= |s| ==>
              MaskCard(s, c)[i] == if 6 <= i < |s| - 4 then c else s[i]
    ensures |s| < 10 ==> forall i :: 0 <= i < |s| ==> MaskCard(s, c)[i] == c
  {
  }

  /** An address keeps its length exactly when it is masked whole or starts with ASCII. */
  lemma EmailRedacts(s: Text, c: byte)
    ensures var at := IndexOf(s, AT_SIGN);
            Redacts(s, MaskEmail(s, c), c) <==> at == 0 || at == |s| || s[0] < 0x80
    ensures var at := IndexOf(s, AT_SIGN);
            0 < at < |s| && s[0] < 0x80 && |MaskEmail(s, c)| == |s| ==>
              forall i :: 0 <= i < |s| ==> MaskEmail(s, c)[i] == if 0 < i < at then c else s[i]
    ensures IndexOf(s, AT_SIGN) in {0, |s|} ==> forall i :: 0 <= i < |s| ==> MaskEmail(s, c)[i] == c
  {
    var at := IndexOf(s, AT_SIGN);
    hide IndexOf;
    if 0 < at < |s| {
      EmailParts(s, c, at);
      hide MaskEmail;
    }
  }

  lemma EmailParts(s: Text, c: byte, at: nat)
    requires 0 < at < |s| && at == IndexOf(s, AT_SIGN)
    ensures var t := MaskEmail(s, c);
            if s[0] < 0x80 then |t| == |s| && forall i :: 0 <= i < |s| ==> t[i] == if 0 < i < at then c else s[i]
            else |t| == |s| + 1
  {
    hide IndexOf;
    var t := MaskEmail(s, c);
    var head, mid, tail := AsString(s[0]), Repeat(c, at - 1), s[at..];
    assert t == head + mid + tail;
    if s[0] < 0x80 {
      forall i | 0 <= i < |s| ensures t[i] == if 0 < i < at then c else s[i] {
        if i == 0 { assert t[i] == head[0]; }
        else if i < at { assert t[i] == mid[i - 1]; }
        else { assert t[i] == tail[i - at]; }
      }
    }
  }

  predicate Inside(ranges: seq<Range>, i: int) {
    exists r :: r in ranges && r.start <= i < r.end
  }

  ghost predicate MasksRedact(s: Text, ranges: seq<Range>, mask: Text -> Text, c: byte) {
    forall r :: r in ranges && r.start <= r.end <= |s| ==> Redacts(s[r.start..r.end], mask(s[r.start..r.end]), c)
  }

  /** An address that starts with another byte grows by one: the byte is taken for a character
      and comes out as the two bytes that encode it. */
  lemma OtherAddressGrows(s: Text, c: byte, at: nat)
    requires 0 < at < |s| && s[at] == 64 && forall i :: 0 <= i < at ==> s[i] != 64
    requires s[0] >= 0x80
    ensures var t := MaskEmail(s, c);
            |t| == |s| + 1 && 0xC0 <= t[0] < 0xC4 && 0x80 <= t[1] < 0xC0 &&
            (t[0] as int - 0xC0) * 64 + (t[1] as int - 0x80) == s[0] as int &&
            (forall i :: 2 <= i <= at ==> t[i] == c) && t[at + 1..] == s[at..]
  {
    assert IndexOf(s, AT_SIGN) == at;
    hide IndexOf;
    var t := MaskEmail(s, c);
    var head, mid, tail := AsString(s[0]), Repeat(c, at - 1), s[at..];
    assert t == head + mid + tail && |head| == 2;
    assert forall i :: 2 <= i <= at ==> t[i] == mid[i - 2];
  }

  lemma RedactsItself(s: Text, c: byte)
    ensures Redacts(s, s, c)
  {
  }

  lemma RedactsAppend(s: Text, t: Text, s': Text, t': Text, c: byte)
    requires Redacts(s, t, c) && Redacts(s', t', c)
    ensures Redacts(s + s', t + t', c)
  {
    forall i | 0 <= i < |s + s'| ensures (t + t')[i] == (s + s')[i] || (t + t')[i] == c {
      if i >= |s| { assert (t + t')[i] == t'[i - |s|] && (s + s')[i] == s'[i - |s|]; }
    }
  }

  /** Replacing redacts. */
  lemma {:induction false} ReplacedRedacts(s: Text, ranges: seq<Range>, mask: Text -> Text, from: nat, c: byte)
    requires Ordered(ranges, from, |s|) && MasksRedact(s, ranges, mask, c)
    ensures from <= |s| && Redacts(s[from..], Replaced(s, ranges, mask, from), c)
    decreases |ranges|
  {
    hide Redacts;
    if ranges == [] {
      RedactsItself(s[from..], c);
    } else {
      var r, rest := ranges[0], ranges[1..];
      assert r in ranges && forall q :: q in rest ==> q in ranges;
      ReplacedRedacts(s, rest, mask, r.end, c);
      var gap, old_, mid := s[from..r.start], s[r.start..r.end], mask(s[r.start..r.end]);
      RedactsItself(gap, c);
      RedactsAppend(gap, gap, old_, mid, c);
      RedactsAppend(gap + old_, gap + mid, s[r.end..], Replaced(s, rest, mask, r.end), c);
      SplitInThree(s, from, r.start, r.end);
    }
  }

  lemma SplitInThree(s: Text, i: nat, j: nat, k: nat)
    requires i <= j <= k <= |s|
    ensures s[i..j] + s[j..k] + s[k..] == s[i..]
  {
    assert s[i..j] + s[j..k] == s[i..k];
    assert s[i..k] + s[k..] == s[i..];
  }

  /** And leaves alone what no range covers. */
  lemma {:induction false} ReplacedLeaves(s: Text, ranges: seq<Range>, mask: Text -> Text, from: nat, c: byte, i: nat)
    requires Ordered(ranges, from, |s|) && MasksRedact(s, ranges, mask, c)
    requires from <= i < |s| && !Inside(ranges, i)
    ensures |Replaced(s, ranges, mask, from)| == |s| - from
    ensures Replaced(s, ranges, mask, from)[i - from] == s[i]
    decreases |ranges|
  {
    ReplacedLength(s, ranges, mask, from, c);
    if ranges != [] {
      var r, rest := ranges[0], ranges[1..];
      assert r in ranges && forall q :: q in rest ==> q in ranges;
      var gap, mid, tail := s[from..r.start], mask(s[r.start..r.end]), Replaced(s, rest, mask, r.end);
      ReplacedLength(s, rest, mask, r.end, c);
      if r.end <= i {
        ReplacedLeaves(s, rest, mask, r.end, c, i);
      }
    }
  }

  lemma ReplacedLength(s: Text, ranges: seq<Range>, mask: Text -> Text, from: nat, c: byte)
    requires Ordered(ranges, from, |s|) && MasksRedact(s, ranges, mask, c)
    ensures from <= |s| && |Replaced(s, ranges, mask, from)| == |s| - from
  {
    hide Ordered, MasksRedact, Replaced;
    ReplacedRedacts(s, ranges, mask, from, c);
  }

  /** What a range covers is what the mask function makes of it. */
  lemma {:induction false} ReplacedMasks(s: Text, ranges: seq<Range>, mask: Text -> Text, from: nat, c: byte, r: Range)
    requires Ordered(ranges, from, |s|) && MasksRedact(s, ranges, mask, c) && r in ranges
    ensures from <= r.start <= r.end <= |s| && |Replaced(s, ranges, mask, from)| == |s| - from
    ensures Replaced(s, ranges, mask, from)[r.start - from..r.end - from] == mask(s[r.start..r.end])
    decreases |ranges|
  {
    hide Redacts, Replaced, Ordered, MasksRedact;
    var q, rest := ranges[0], ranges[1..];
    FirstRange(s, ranges, mask, from, c);
    ReplacedLength(s, ranges, mask, from, c);
    var gap, mid, tail := s[from..q.start], mask(s[q.start..q.end]), Replaced(s, rest, mask, q.end);
    if r == q {
      SliceMiddle(gap, mid, tail);
    } else {
      ReplacedMasks(s, rest, mask, q.end, c, r);
      SliceTail(gap + mid, tail, r.start - q.end, r.end - q.end);
    }
  }

  lemma FirstRange(s: Text, ranges: seq<Range>, mask: Text -> Text, from: nat, c: byte)
    requires Ordered(ranges, from, |s|) && MasksRedact(s, ranges, mask, c) && ranges != []
    ensures var q, rest := ranges[0], ranges[1..];
            from <= q.start <= q.end <= |s| && Ordered(rest, q.end, |s|) && MasksRedact(s, rest, mask, c) &&
            |mask(s[q.start..q.end])| == q.end - q.start &&
            Replaced(s, ranges, mask, from)
              == s[from..q.start] + mask(s[q.start..q.end]) + Replaced(s, rest, mask, q.end)
  {
    hide Redacts;
    var q := ranges[0];
    assert q in ranges && forall p :: p in ranges[1..] ==> p in ranges;
    RedactsLength(s[q.start..q.end], mask(s[q.start..q.end]), c);
  }

  lemma SliceMiddle(a: Text, b: Text, c: Text)
    ensures (a + b + c)[|a|..|a| + |b|] == b
  {
  }

  lemma SliceTail(a: Text, b: Text, lo: nat, hi: nat)
    requires lo <= hi <= |b|
    ensures (a + b)[|a| + lo..|a| + hi] == b[lo..hi]
  {
  }

  /** A rule whose matches are ordered and whose mask function redacts what is matched. */
  ghost predicate Redacting(rule: Rule, c: byte) {
    WellMatched(rule) && forall s: Text :: MasksRedact(s, rule.matches(s), rule.mask, c)
  }

  ghost predicate AllRedacting(rules: seq<Rule>, c: byte) {
    AllWellMatched(rules) && forall i :: 0 <= i < |rules| ==> Redacting(rules[i], c)
  }

  lemma ApplyRedacts(rule: Rule, s: Text, c: byte)
    requires Redacting(rule, c)
    ensures Redacts(s, Apply(rule, s), c)
    ensures forall i :: 0 <= i < |s| && !Inside(rule.matches(s), i) ==> Apply(rule, s)[i] == s[i]
  {
    hide Replaced, Ordered, MasksRedact, Redacts, Inside;
    assert Ordered(rule.matches(s), 0, |s|) && MasksRedact(s, rule.matches(s), rule.mask, c);
    hide Redacting, WellMatched;
    ReplacedWholly(s, rule.matches(s), rule.mask, c);
    RedactsLength(s, Apply(rule, s), c);
  }

  lemma ReplacedWholly(s: Text, ranges: seq<Range>, mask: Text -> Text, c: byte)
    requires Ordered(ranges, 0, |s|) && MasksRedact(s, ranges, mask, c)
    ensures Redacts(s, Replaced(s, ranges, mask, 0), c)
    ensures forall i :: 0 <= i < |s| && !Inside(ranges, i) ==> Replaced(s, ranges, mask, 0)[i] == s[i]
  {
    hide Replaced, Ordered, MasksRedact, Inside;
    ReplacedRedacts(s, ranges, mask, 0, c);
    assert s[0..] == s;
    forall i: nat | i < |s| && !Inside(ranges, i) ensures Replaced(s, ranges, mask, 0)[i] == s[i] {
      ReplacedLeaves(s, ranges, mask, 0, c, i);
    }
  }

  lemma RedactsLength(s: Text, t: Text, c: byte)
    requires Redacts(s, t, c)
    ensures |t| == |s|
  {
  }

  lemma RedactsTwice(s: Text, t: Text, u: Text, c: byte)
    requires Redacts(s, t, c) && Redacts(t, u, c)
    ensures Redacts(s, u, c)
  {
  }

  /** Position i is matched by some rule at the time that rule is applied. */
  ghost predicate Touched(rules: seq<Rule>, s: Text, i: int)
    requires AllWellMatched(rules)
    decreases |rules|
  {
    |rules| > 0 && (Inside(rules[0].matches(s), i) || Touched(rules[1..], Apply(rules[0], s), i))
  }

  /** Mask keeps the length, writes nothing but the mask character, and leaves alone what no
      rule matched. */
  lemma {:induction false} MaskRedacts(rules: seq<Rule>, s: Text, c: byte)
    requires AllRedacting(rules, c)
    ensures Redacts(s, Mask(rules, s), c)
    ensures forall i :: 0 <= i < |s| && !Touched(rules, s, i) ==> Mask(rules, s)[i] == s[i]
    decreases |rules|
  {
    if |rules| > 0 {
      ApplyRedacts(rules[0], s, c);
      hide Redacting, Apply;
      MaskRedacts(rules[1..], Apply(rules[0], s), c);
    }
  }

  /** What a rule masks stays masked, whatever rules come after it. */
  lemma MaskedStaysMasked(rules: seq<Rule>, s: Text, c: byte, r: Range, i: nat)
    requires AllRedacting(rules, c) && |rules| > 0 && r in rules[0].matches(s)
    requires r.start <= i < r.end <= |s|
    requires var m := rules[0].mask(s[r.start..r.end]); i - r.start < |m| && m[i - r.start] == c
    ensures |Mask(rules, s)| == |s| && Mask(rules, s)[i] == c
  {
    var t := Apply(rules[0], s);
    RuleMasks(rules[0], s, c, r, i);
    hide Redacting, Apply;
    MaskRedacts(rules[1..], t, c);
  }

  lemma RuleMasks(rule: Rule, s: Text, c: byte, r: Range, i: nat)
    requires Redacting(rule, c) && r in rule.matches(s) && r.start <= i < r.end <= |s|
    requires var m := rule.mask(s[r.start..r.end]); i - r.start < |m| && m[i - r.start] == c
    ensures |Apply(rule, s)| == |s| && Apply(rule, s)[i] == c
  {
    hide Replaced, MasksRedact, Ordered;
    assert Ordered(rule.matches(s), 0, |s|) && MasksRedact(s, rule.matches(s), rule.mask, c);
    hide Redacting;
    ReplacedMasks(s, rule.matches(s), rule.mask, 0, c, r);
    var t := Apply(rule, s);
    assert t[r.start..r.end] == rule.mask(s[r.start..r.end]);
    assert t[r.start..r.end][i - r.start] == t[i];
  }

  /** The default rules are of this kind, whatever the expressions match, provided that what
      the address expression matches starts with an ASCII byte. */
  lemma DefaultRulesRedact(c: byte, phone: Text -> seq<Range>, idCard: Text -> seq<Range>,
                           email: Text -> seq<Range>, bankCard: Text -> seq<Range>)
    requires forall s: Text :: Ordered(phone(s), 0, |s|) && Ordered(idCard(s), 0, |s|) &&
                               Ordered(email(s), 0, |s|) && Ordered(bankCard(s), 0, |s|)
    requires forall s: Text, r :: r in email(s) && r.start < |s| ==> s[r.start] < 0x80
    ensures AllRedacting(DefaultRules(c, phone, idCard, email, bankCard), c)
  {
    hide Redacting, Ordered;
    PhoneRuleRedacts(phone, c);
    CardRuleRedacts(idCard, c);
    EmailRuleRedacts(email, c);
    CardRuleRedacts(bankCard, c);
  }

  lemma PhoneRuleRedacts(matches: Text -> seq<Range>, c: byte)
    requires forall s: Text :: Ordered(matches(s), 0, |s|)
    ensures Redacting(Rule(matches, PhoneMask(c)), c)
  {
    hide MaskPhone, Redacts;
    forall m: Text ensures Redacts(m, PhoneMask(c)(m), c) { PhoneRedacts(m, c); }
  }

  lemma CardRuleRedacts(matches: Text -> seq<Range>, c: byte)
    requires forall s: Text :: Ordered(matches(s), 0, |s|)
    ensures Redacting(Rule(matches, CardMask(c)), c)
  {
    hide MaskCard, Redacts;
    forall m: Text ensures Redacts(m, CardMask(c)(m), c) { CardRedacts(m, c); }
  }

  lemma EmailRuleRedacts(matches: Text -> seq<Range>, c: byte)
    requires forall s: Text :: Ordered(matches(s), 0, |s|)
    requires forall s: Text, r :: r in matches(s) && r.start < |s| ==> s[r.start] < 0x80
    ensures Redacting(Rule(matches, EmailMask(c)), c)
  {
    hide MaskEmail, Redacts, Ordered;
    forall s: Text, r: Range | r in matches(s) && r.start <= r.end <= |s|
      ensures Redacts(s[r.start..r.end], EmailMask(c)(s[r.start..r.end]), c)
    {
      EmailRedacts(s[r.start..r.end], c);
      assert r.start < r.end ==> s[r.start..r.end][0] == s[r.start];
    }
  }

  // ------------------------------------------------- what the default rules hide

  function AfterPhone(c: byte, phone: Text -> seq<Range>, s: Text): Text
    requires WellMatched(Rule(phone, PhoneMask(c)))
  {
    Apply(Rule(phone, PhoneMask(c)), s)
  }

  function AfterCard(c: byte, card: Text -> seq<Range>, s: Text): Text
    requires WellMatched(Rule(card, CardMask(c)))
  {
    Apply(Rule(card, CardMask(c)), s)
  }

  function AfterEmail(c: byte, email: Text -> seq<Range>, s: Text): Text
    requires WellMatched(Rule(email, EmailMask(c)))
  {
    Apply(Rule(email, EmailMask(c)), s)
  }

  ghost predicate AllMatched(phone: Text -> seq<Range>, idCard: Text -> seq<Range>,
                             email: Text -> seq<Range>, bankCard: Text -> seq<Range>) {
    (forall s: Text :: Ordered(phone(s), 0, |s|) && Ordered(idCard(s), 0, |s|) &&
                       Ordered(email(s), 0, |s|) && Ordered(bankCard(s), 0, |s|)) &&
    forall s: Text, r :: r in email(s) && r.start < |s| ==> s[r.start] < 0x80
  }

  /** From start + 3 to start + 7 of a phone number, from start + 6 to end - 4 of a card, and
      strictly between the first byte and the at sign of an address. */
  predicate InPhone(r: Range, k: int) {
    r.end - r.start == 11 && r.start + 3 <= k < r.start + 7
  }

  predicate InCard(r: Range, k: int) {
    10 <= r.end - r.start && r.start + 6 <= k < r.end - 4
  }

  predicate InAddress(t: Text, r: Range, k: int) {
    r.end <= |t| && r.start < k < r.end && (exists at :: k < at < r.end && t[at] == AT_SIGN) &&
    forall i :: r.start <= i <= k ==> t[i] != AT_SIGN
  }

  /** The phone rule sees the text, each other rule what the ones before it have left; and
      what a match of any of the four hides is hidden in the end. */
  lemma DefaultRulesHide(c: byte, phone: Text -> seq<Range>, idCard: Text -> seq<Range>,
                         email: Text -> seq<Range>, bankCard: Text -> seq<Range>, s: Text)
    requires AllMatched(phone, idCard, email, bankCard)
    ensures AllWellMatched(DefaultRules(c, phone, idCard, email, bankCard))
    ensures WellMatched(Rule(phone, PhoneMask(c))) && WellMatched(Rule(idCard, CardMask(c))) &&
            WellMatched(Rule(email, EmailMask(c))) && WellMatched(Rule(bankCard, CardMask(c)))
    ensures var t := Mask(DefaultRules(c, phone, idCard, email, bankCard), s);
            var t1 := AfterPhone(c, phone, s);
            var t2 := AfterCard(c, idCard, t1);
            var t3 := AfterEmail(c, email, t2);
            |t| == |s| == |t1| == |t2| == |t3| && t == AfterCard(c, bankCard, t3) &&
            (forall r, k :: r in phone(s) && InPhone(r, k) ==> 0 <= k < |t| && t[k] == c) &&
            (forall r, k :: r in idCard(t1) && InCard(r, k) ==> 0 <= k < |t| && t[k] == c) &&
            (forall r, k :: r in email(t2) && InAddress(t2, r, k) ==> 0 <= k < |t| && t[k] == c) &&
            (forall r, k :: r in bankCard(t3) && InCard(r, k) ==> 0 <= k < |t| && t[k] == c)
  {
    DefaultRulesRedact(c, phone, idCard, email, bankCard);
    var rules := DefaultRules(c, phone, idCard, email, bankCard);
    hide Ordered, Redacting, Apply, WellMatched, Mask, MaskPhone, MaskCard, MaskEmail, InPhone, InCard, InAddress, PhoneMask, CardMask, EmailMask;
    RuleRedacts(rules, 0, c);
    RuleRedacts(rules, 1, c);
    RuleRedacts(rules, 2, c);
    RuleRedacts(rules, 3, c);
    var t1 := Apply(rules[0], s);
    var t2 := Apply(rules[1], t1);
    var t3 := Apply(rules[2], t2);
    MaskFrom(rules, 0, s);
    MaskFrom(rules, 1, t1);
    MaskFrom(rules, 2, t2);
    MaskFrom(rules, 3, t3);
    assert rules[0..] == rules;
    RestRedacts(rules, 1, c);
    RestRedacts(rules, 2, c);
    RestRedacts(rules, 3, c);
    forall r, k | r in phone(s) && InPhone(r, k) ensures 0 <= k < |Mask(rules, s)| && Mask(rules, s)[k] == c {
      PhoneHides(rules, s, c, r, k);
    }
    forall r, k | r in idCard(t1) && InCard(r, k) ensures 0 <= k < |Mask(rules[1..], t1)| && Mask(rules[1..], t1)[k] == c {
      CardHides(rules[1..], t1, c, r, k);
    }
    forall r, k | r in email(t2) && InAddress(t2, r, k) ensures 0 <= k < |Mask(rules[2..], t2)| && Mask(rules[2..], t2)[k] == c {
      AddressHides(rules[2..], t2, c, r, k);
    }
    forall r, k | r in bankCard(t3) && InCard(r, k) ensures 0 <= k < |Mask(rules[3..], t3)| && Mask(rules[3..], t3)[k] == c {
      CardHides(rules[3..], t3, c, r, k);
    }
    ApplyLength(rules[0], s, c);
    ApplyLength(rules[1], t1, c);
    ApplyLength(rules[2], t2, c);
    ApplyLength(rules[3], t3, c);
  }

  lemma RuleRedacts(rules: seq<Rule>, i: nat, c: byte)
    requires AllRedacting(rules, c) && i < |rules|
    ensures WellMatched(rules[i]) && Redacting(rules[i], c)
  {
  }

  lemma RestRedacts(rules: seq<Rule>, i: nat, c: byte)
    requires AllRedacting(rules, c) && i < |rules|
    ensures AllRedacting(rules[i..], c)
  {
    assert forall j :: 0 <= j < |rules[i..]| ==> rules[i..][j] == rules[i + j];
  }

  lemma MaskFrom(rules: seq<Rule>, i: nat, s: Text)
    requires AllWellMatched(rules) && i < |rules|
    ensures AllWellMatched(rules[i..]) && AllWellMatched(rules[i + 1..]) && WellMatched(rules[i])
    ensures Mask(rules[i..], s) == if i + 1 == |rules| then Apply(rules[i], s) else Mask(rules[i + 1..], Apply(rules[i], s))
  {
    assert forall j :: 0 <= j < |rules[i..]| ==> rules[i..][j] == rules[i + j];
    var rest := rules[i + 1..];
    assert forall j :: 0 <= j < |rest| ==> rest[j] == rules[i + 1 + j];
    assert rules[i..][1..] == rules[i + 1..];
  }

  lemma ApplyLength(rule: Rule, s: Text, c: byte)
    requires Redacting(rule, c)
    ensures |Apply(rule, s)| == |s|
  {
    ApplyRedacts(rule, s, c);
  }

  lemma InRange(rule: Rule, s: Text, c: byte, r: Range)
    requires Redacting(rule, c) && r in rule.matches(s)
    ensures r.start <= r.end <= |s|
  {
    ReplacedMasks(s, rule.matches(s), rule.mask, 0, c, r);
  }

  lemma PhoneHides(rules: seq<Rule>, s: Text, c: byte, r: Range, k: int)
    requires AllRedacting(rules, c) && |rules| > 0 && rules[0].mask == PhoneMask(c)
    requires r in rules[0].matches(s) && InPhone(r, k)
    ensures 0 <= k < |Mask(rules, s)| && Mask(rules, s)[k] == c
  {
    hide MaskPhone, Mask;
    InRange(rules[0], s, c, r);
    PhoneRedacts(s[r.start..r.end], c);
    MaskedStaysMasked(rules, s, c, r, k);
  }

  lemma CardHides(rules: seq<Rule>, s: Text, c: byte, r: Range, k: int)
    requires AllRedacting(rules, c) && |rules| > 0 && rules[0].mask == CardMask(c)
    requires r in rules[0].matches(s) && InCard(r, k)
    ensures 0 <= k < |Mask(rules, s)| && Mask(rules, s)[k] == c
  {
    hide MaskCard, Mask;
    InRange(rules[0], s, c, r);
    CardRedacts(s[r.start..r.end], c);
    MaskedStaysMasked(rules, s, c, r, k);
  }

  lemma AddressHides(rules: seq<Rule>, s: Text, c: byte, r: Range, k: int)
    requires AllRedacting(rules, c) && |rules| > 0 && rules[0].mask == EmailMask(c)
    requires r in rules[0].matches(s) && InAddress(s, r, k)
    ensures 0 <= k < |Mask(rules, s)| && Mask(rules, s)[k] == c
  {
    hide MaskEmail, Mask, IndexOf, Redacting, InAddress, AllRedacting, Redacts;
    RuleRedacts(rules, 0, c);
    InRange(rules[0], s, c, r);
    AddressRedacted(rules[0], s, c, r);
    var at := AddressSlice(s, r, k);
    assert rules[0].mask(s[r.start..r.end]) == MaskEmail(s[r.start..r.end], c);
    NameHides(s[r.start..r.end], c, k - r.start, at);
    MaskedStaysMasked(rules, s, c, r, k);
  }

  lemma AddressSlice(s: Text, r: Range, k: int) returns (at: nat)
    requires InAddress(s, r, k)
    ensures var m := s[r.start..r.end];
            0 < k - r.start < at < |m| && m[at] == AT_SIGN && forall i :: 0 <= i <= k - r.start ==> m[i] != AT_SIGN
  {
    var m := s[r.start..r.end];
    var p :| k < p < r.end && s[p] == AT_SIGN;
    at := p - r.start;
    assert forall i :: 0 <= i <= k - r.start ==> m[i] == s[r.start + i];
  }

  lemma NameHides(m: Text, c: byte, k: nat, at: nat)
    requires 0 < k < at < |m| && m[at] == AT_SIGN && forall i :: 0 <= i <= k ==> m[i] != AT_SIGN
    requires Redacts(m, MaskEmail(m, c), c)
    ensures k < |MaskEmail(m, c)| && MaskEmail(m, c)[k] == c
  {
    assert k < IndexOf(m, AT_SIGN) <= at;
    hide MaskEmail;
    EmailRedacts(m, c);
  }

  /** The mask of a redacting rule keeps the length of its matches. */
  lemma AddressRedacted(rule: Rule, s: Text, c: byte, r: Range)
    requires Redacting(rule, c) && r in rule.matches(s) && r.start <= r.end <= |s|
    ensures Redacts(s[r.start..r.end], rule.mask(s[r.start..r.end]), c)
  {
    assert MasksRedact(s, rule.matches(s), rule.mask, c);
  }

  // ------------------------------------------------- iterating

  function Visible(s: Text, c: byte): nat {
    if s == [] then 0 else (if s[0] == c then 0 else 1) + Visible(s[1..], c)
  }

  lemma {:induction false} RedactingHides(s: Text, t: Text, c: byte)
    requires Redacts(s, t, c)
    ensures Visible(t, c) <= Visible(s, c) <= |s|
    ensures t != s ==> Visible(t, c) < Visible(s, c)
    decreases |s|
  {
    if s != [] {
      assert Redacts(s[1..], t[1..], c);
      RedactingHides(s[1..], t[1..], c);
      assert t == [t[0]] + t[1..] && s == [s[0]] + s[1..];
    }
  }

  function Iterated(rules: seq<Rule>, s: Text, n: nat): Text
    requires AllWellMatched(rules)
    decreases n
  {
    if n == 0 then s else Iterated(rules, Mask(rules, s), n - 1)
  }

  lemma {:induction false} StaysFixed(rules: seq<Rule>, s: Text, n: nat)
    requires AllWellMatched(rules) && Mask(rules, s) == s
    ensures Iterated(rules, s, n) == s
    decreases n
  {
    hide Mask;
    if n > 0 { StaysFixed(rules, s, n - 1); }
  }

  lemma {:induction false} FixpointWithinVisible(rules: seq<Rule>, s: Text, c: byte, n: nat)
    requires AllRedacting(rules, c) && Visible(s, c) <= n
    ensures var t := Iterated(rules, s, n); Mask(rules, t) == t && Redacts(s, t, c)
    decreases n
  {
    hide Mask, AllWellMatched, Visible, Redacts, Redacting, Iterated;
    var t := Mask(rules, s);
    MaskRedacts(rules, s, c);
    RedactingHides(s, t, c);
    if t == s {
      StaysFixed(rules, s, n);
    } else {
      FixpointWithinVisible(rules, t, c, n - 1);
      RedactsTwice(s, t, Iterated(rules, t, n - 1), c);
      assert Iterated(rules, s, n) == Iterated(rules, t, n - 1) by { OneRound(rules, s, n); }
    }
  }

  lemma OneRound(rules: seq<Rule>, s: Text, n: nat)
    requires AllWellMatched(rules) && n > 0
    ensures Iterated(rules, s, n) == Iterated(rules, Mask(rules, s), n - 1)
  {
  }

  /** What one round leaves may match again, but |s| rounds always settle the text. */
  lemma FixpointWithinLength(rules: seq<Rule>, s: Text, c: byte)
    requires AllRedacting(rules, c)
    ensures var t := Iterated(rules, s, |s|); Mask(rules, t) == t && Redacts(s, t, c)
  {
    hide Mask, Redacting, Visible;
    RedactingHides(s, s, c);
    FixpointWithinVisible(rules, s, c, |s|);
  }

  // ------------------------------------------------- what a round settles

  /** What the rule matches is masked as the rule would mask it. */
  ghost predicate LeavesMatches(rule: Rule, s: Text) {
    forall r :: r in rule.matches(s) ==> LeavesRange(rule.mask, s, r)
  }

  predicate LeavesRange(mask: Text -> Text, s: Text, r: Range) {
    r.start <= r.end <= |s| && mask(s[r.start..r.end]) == s[r.start..r.end]
  }

  lemma ReplacedAtRange(s: Text, ranges: seq<Range>, mask: Text -> Text, c: byte, r: Range)
    requires Ordered(ranges, 0, |s|) && MasksRedact(s, ranges, mask, c) && r in ranges
    ensures var t := Replaced(s, ranges, mask, 0);
            |t| == |s| && r.start <= r.end <= |s| && t[r.start..r.end] == mask(s[r.start..r.end])
  {
    ReplacedMasks(s, ranges, mask, 0, c, r);
  }

  lemma ReplacedLeavesIff(s: Text, ranges: seq<Range>, mask: Text -> Text, c: byte)
    requires Ordered(ranges, 0, |s|) && MasksRedact(s, ranges, mask, c)
    ensures Replaced(s, ranges, mask, 0) == s <==> forall r :: r in ranges ==> LeavesRange(mask, s, r)
  {
    hide Replaced, Ordered, MasksRedact, Inside;
    var t := Replaced(s, ranges, mask, 0);
    ReplacedLength(s, ranges, mask, 0, c);
    if t == s {
      forall r | r in ranges ensures LeavesRange(mask, s, r) { ReplacedAtRange(s, ranges, mask, c, r); }
    }
    if forall r :: r in ranges ==> LeavesRange(mask, s, r) {
      forall i: nat | i < |s| ensures t[i] == s[i] {
        if Inside(ranges, i) {
          var r := RangeAround(ranges, i);
          assert LeavesRange(mask, s, r);
          ReplacedAtRange(s, ranges, mask, c, r);
          assert t[r.start..r.end][i - r.start] == s[r.start..r.end][i - r.start];
        } else {
          ReplacedLeaves(s, ranges, mask, 0, c, i);
        }
      }
    }
  }

  /** A rule leaves a text alone if and only if it leaves each of its matches. */
  lemma ApplyLeavesIff(rule: Rule, s: Text, c: byte)
    requires Redacting(rule, c)
    ensures Apply(rule, s) == s <==> LeavesMatches(rule, s)
  {
    hide Replaced, Ordered, MasksRedact, LeavesRange;
    assert Ordered(rule.matches(s), 0, |s|) && MasksRedact(s, rule.matches(s), rule.mask, c);
    ReplacedLeavesIff(s, rule.matches(s), rule.mask, c);
  }

  lemma RangeAround(ranges: seq<Range>, i: int) returns (r: Range)
    requires Inside(ranges, i)
    ensures r in ranges && r.start <= i < r.end
  {
    r :| r in ranges && r.start <= i < r.end;
  }

  /** A text is settled if and only if every rule leaves it alone: none undoes another. */
  lemma {:induction false} MaskLeavesIff(rules: seq<Rule>, s: Text, c: byte)
    requires AllRedacting(rules, c)
    ensures Mask(rules, s) == s <==> forall i :: 0 <= i < |rules| ==> Apply(rules[i], s) == s
    decreases |rules|
  {
    hide Apply, Redacting, WellMatched, Visible, Redacts;
    if |rules| > 0 {
      var rest, u := rules[1..], Apply(rules[0], s);
      assert WellMatched(rules[0]) && Redacting(rules[0], c);
      assert forall i :: 0 <= i < |rest| ==> rest[i] == rules[i + 1];
      assert AllRedacting(rest, c);
      if u == s {
        MaskLeavesIff(rest, s, c);
      } else {
        ApplyRedacts(rules[0], s, c);
        RedactingHides(s, u, c);
        MaskRedacts(rest, u, c);
        RedactingHides(u, Mask(rest, u), c);
        assert Visible(Mask(rest, u), c) < Visible(s, c);
      }
    }
  }

  /** One round settles a text if and only if whatever a rule still matches afterwards is
      masked as that rule would mask it. */
  lemma OneRoundSettlesIff(rules: seq<Rule>, s: Text, c: byte)
    requires AllRedacting(rules, c)
    ensures var t := Mask(rules, s);
            Mask(rules, t) == t <==> forall i :: 0 <= i < |rules| ==> LeavesMatches(rules[i], t)
  {
    hide Apply, Mask, LeavesMatches;
    var t := Mask(rules, s);
    MaskLeavesIff(rules, t, c);
    forall i | 0 <= i < |rules| ensures WellMatched(rules[i]) && (Apply(rules[i], t) == t <==> LeavesMatches(rules[i], t)) {
      assert Redacting(rules[i], c);
      ApplyLeavesIff(rules[i], t, c);
    }
    hide Redacting, WellMatched;
  }

  // ------------------------------------------------- why one round is not enough

  /** How many bytes at the start are masked already. */
  function Masked(s: Text, c: byte): (k: nat)
    ensures k <= |s| && (k < |s| ==> s[k] != c)
    ensures forall i :: 0 <= i < k ==> s[i] == c
  {
    if s == [] || s[0] != c then 0 else 1 + Masked(s[1..], c)
  }

  function CreepMatches(c: byte): Text -> seq<Range> {
    s => if Masked(s, c) < |s| then [Range(0, Masked(s, c) + 1)] else []
  }

  function WholeMask(c: byte): Text -> Text {
    s => MaskAll(s, c)
  }

  /** A rule as ^\**[^*] would be: what is masked at the start, and one byte more. */
  function Creeping(c: byte): Rule {
    Rule(CreepMatches(c), WholeMask(c))
  }

  function HalfWay(c: byte, d: byte, k: nat, n: nat): Text {
    Repeat(c, k) + Repeat(d, n)
  }

  lemma OneRangeOrdered(end: nat, n: nat)
    ensures Ordered([], 0, n)
    ensures end <= n ==> Ordered([Range(0, end)], 0, n)
  {
    if end <= n { assert [Range(0, end)][1..] == [] && Ordered([], end, n); }
  }

  lemma CreepMatchesOrdered(c: byte)
    ensures forall s: Text :: Ordered(CreepMatches(c)(s), 0, |s|)
  {
    hide Masked, Ordered;
    forall s: Text ensures Ordered(CreepMatches(c)(s), 0, |s|) {
      OneRangeOrdered(Masked(s, c) + 1, |s|);
    }
  }

  lemma CreepingRedacts(c: byte)
    ensures WellMatched(Creeping(c)) && AllWellMatched([Creeping(c)]) && AllRedacting([Creeping(c)], c)
  {
    CreepMatchesOrdered(c);
    hide Ordered, MasksRedact, CreepMatches, WholeMask;
    var rule := Creeping(c);
    assert rule.matches == CreepMatches(c) && rule.mask == WholeMask(c);
    assert Redacting(rule, c) by {
      forall s: Text ensures MasksRedact(s, rule.matches(s), rule.mask, c) {
        WholeMaskRedacts(s, rule.matches(s), c);
      }
    }
    hide Redacting, WellMatched;
  }

  lemma WholeMaskRedacts(s: Text, ranges: seq<Range>, c: byte)
    ensures MasksRedact(s, ranges, WholeMask(c), c)
  {
  }

  lemma CreepsOn(c: byte, d: byte, k: nat, n: nat)
    requires c != d && n > 0
    ensures AllWellMatched([Creeping(c)])
    ensures Mask([Creeping(c)], HalfWay(c, d, k, n)) == HalfWay(c, d, k + 1, n - 1)
  {
    hide Ordered, Replaced, Masked, Apply, Redacting, WellMatched;
    CreepingRedacts(c);
    var s := HalfWay(c, d, k, n);
    assert s[k] == d && forall i :: 0 <= i < k ==> s[i] == c;
    assert Masked(s, c) == k;
    OneRangeOrdered(k + 1, |s|);
    ApplyOne(Creeping(c), s, k + 1);
    assert WholeMask(c)(s[..k + 1]) + s[k + 1..] == HalfWay(c, d, k + 1, n - 1);
    MaskOne(Creeping(c), s);
  }

  lemma MaskOne(rule: Rule, s: Text)
    requires WellMatched(rule) && AllWellMatched([rule])
    ensures Mask([rule], s) == Apply(rule, s)
  {
    assert [rule][1..] == [];
    assert Mask([], Apply(rule, s)) == Apply(rule, s);
  }

  lemma ApplyOne(rule: Rule, s: Text, end: nat)
    requires WellMatched(rule) && end <= |s| && rule.matches(s) == [Range(0, end)]
    ensures Apply(rule, s) == rule.mask(s[..end]) + s[end..]
  {
    var ranges := [Range(0, end)];
    assert ranges[1..] == [] && s[0..0] == [] && s[0..end] == s[..end];
    assert Replaced(s, [], rule.mask, end) == s[end..];
    assert Apply(rule, s) == s[0..0] + rule.mask(s[0..end]) + Replaced(s, ranges[1..], rule.mask, end);
  }

  lemma {:induction false} CreepsFor(c: byte, d: byte, k: nat, n: nat, rounds: nat)
    requires c != d && rounds <= n
    ensures AllWellMatched([Creeping(c)])
    ensures Iterated([Creeping(c)], HalfWay(c, d, k, n), rounds) == HalfWay(c, d, k + rounds, n - rounds)
    decreases rounds
  {
    hide Mask, HalfWay, Creeping, AllWellMatched, AllRedacting, WellMatched;
    CreepingRedacts(c);
    if rounds > 0 {
      CreepsOn(c, d, k, n);
      OneRound([Creeping(c)], HalfWay(c, d, k, n), rounds);
      CreepsFor(c, d, k + 1, n - 1, rounds - 1);
    }
  }

  /** The bound on the rounds cannot be improved: there is a redacting rule, and for every
      length a text, for which no smaller number of rounds is enough. */
  lemma FewerRoundsAreNotEnough(c: byte, d: byte, n: nat, rounds: nat)
    requires c != d && rounds < n
    ensures AllRedacting([Creeping(c)], c) && |Repeat(d, n)| == n
    ensures var t := Iterated([Creeping(c)], Repeat(d, n), rounds); Mask([Creeping(c)], t) != t
  {
    hide Mask, Creeping, AllWellMatched, AllRedacting, WellMatched, Iterated, HalfWay;
    CreepingRedacts(c);
    HalfWays(c, d, rounds, n);
    CreepsFor(c, d, 0, n, rounds);
    CreepsOn(c, d, rounds, n - rounds);
  }

  lemma HalfWays(c: byte, d: byte, k: nat, n: nat)
    requires c != d && k < n
    ensures HalfWay(c, d, 0, n) == Repeat(d, n)
    ensures HalfWay(c, d, k, n - k) != HalfWay(c, d, k + 1, n - k - 1)
  {
    assert HalfWay(c, d, k, n - k)[k] == d && HalfWay(c, d, k + 1, n - k - 1)[k] == c;
  }
}
