/** Money as text: the digest's printer and the importer's parser. Amounts are whole cents. */
module MoneyText {
  import opened Common

  // ----- the printer

  predicate IsDigit(c: char) {
    '0' <= c <= '9'
  }

  function DigitChar(d: nat): (c: char)
    requires d < 10
    ensures IsDigit(c) && DigitValue(c) == d
  {
    ('0' as int + d) as char
  }

  function DigitValue(c: char): nat
    requires IsDigit(c)
  {
    c as int - '0' as int
  }

  function Decimal(n: nat): string {
    if n < 10 then [DigitChar(n)] else Decimal(n / 10) + [DigitChar(n % 10)]
  }

  /** Three digits, with leading zeros. */
  function Triple(n: nat): string
    requires n < 1000
  {
    [DigitChar(n / 100), DigitChar(n / 10 % 10), DigitChar(n % 10)]
  }

  /** The digits of a whole number, with a comma between groups of three. */
  function Grouped(n: nat): string {
    if n < 1000 then Decimal(n) else Grouped(n / 1000) + "," + Triple(n % 1000)
  }

  function Money(cents: int): string {
    var n := Abs(cents);
    (if cents < 0 then "-$" else "$") + Grouped(n / 100) + "." + [DigitChar(n / 10 % 10), DigitChar(n % 10)]
  }

  // ----- the grammar of the parser's regular expression

  predicate AllDigits(s: string) {
    forall i | 0 <= i < |s| :: IsDigit(s[i])
  }

  predicate AllSpaces(s: string) {
    forall i | 0 <= i < |s| :: IsSpace(s[i])
  }

  /** One to three digits, then one or more groups of a comma and three digits. */
  predicate IsGrouped(s: string) {
    && |s| >= 5
    && s[|s| - 4] == ',' && AllDigits(s[|s| - 3..])
    && var front := s[..|s| - 4];
       (|front| <= 3 && AllDigits(front)) || IsGrouped(front)
  }

  predicate IsWhole(s: string) {
    IsGrouped(s) || (s != "" && AllDigits(s))
  }

  predicate IsFraction(s: string) {
    1 <= |s| <= 2 && AllDigits(s)
  }

  /** The number a run of digits denotes once its commas are dropped. */
  function Digits(s: string): nat {
    if s == "" then 0
    else
      var front, last := s[..|s| - 1], s[|s| - 1];
      if IsDigit(last) then 10 * Digits(front) + DigitValue(last) else Digits(front)
  }

  function FractionCents(s: string): nat {
    if |s| == 1 then 10 * Digits(s) else Digits(s)
  }

  /** The first group, then each further one behind a comma. */
  function CommaJoined(first: string, groups: seq<string>): string {
    if groups == [] then first
    else CommaJoined(first, groups[..|groups| - 1]) + "," + groups[|groups| - 1]
  }

  /** One to three digits, and further groups of exactly three. */
  ghost predicate Groups(first: string, groups: seq<string>) {
    && 1 <= |first| <= 3 && (forall i | 0 <= i < |first| :: '0' <= first[i] <= '9')
    && groups != []
    && forall k | 0 <= k < |groups| ::
         |groups[k]| == 3 && forall i | 0 <= i < 3 :: '0' <= groups[k][i] <= '9'
  }

  /** A text as the regular expression takes it apart. */
  datatype Parts = Parts(sign: string, gap: string, dollar: string, gap2: string,
                         whole: string, fraction: Option<string>)
  {
    ghost predicate Valid() {
      && sign in ["", "+", "-"] && AllSpaces(gap)
      && dollar in ["", "$"] && AllSpaces(gap2)
      && (fraction.Some? ==> 1 <= |fraction.value| <= 2)
      && (fraction.Some? ==> forall i | 0 <= i < |fraction.value| :: '0' <= fraction.value[i] <= '9')
      && (|| (whole == "" && fraction.Some?)
          || (whole != "" && forall i | 0 <= i < |whole| :: '0' <= whole[i] <= '9')
          || exists first, groups :: Groups(first, groups) && whole == CommaJoined(first, groups))
    }

    function Body(): string {
      whole + if fraction.Some? then "." + fraction.value else ""
    }

    function Text(): string {
      sign + (gap + (dollar + (gap2 + Body())))
    }

    function Unsigned(): int {
      100 * Digits(whole)
      + if fraction.None? then 0
        else if |fraction.value| == 1 then 10 * Digits(fraction.value) else Digits(fraction.value)
    }

    function Cents(): int {
      if sign == "-" then -Unsigned() else Unsigned()
    }
  }

  // ----- the parser

  datatype AmountError = MissingOrBlank | Malformed

  function FindDot(s: string): (i: nat)
    ensures i <= |s| && '.' !in s[..i] && (i < |s| ==> s[i] == '.')
  {
    if s == "" || s[0] == '.' then 0
    else
      var i := 1 + FindDot(s[1..]);
      assert s[..i] == [s[0]] + s[1..][..i - 1];
      i
  }

  function ParseBody(s: string): Option<int> {
    var i := FindDot(s);
    var whole := s[..i];
    if i == |s| then
      if IsWhole(s) then Some(100 * Digits(s)) else None
    else
      var fraction := s[i + 1..];
      if IsFraction(fraction) && (whole == "" || IsWhole(whole))
      then Some(100 * Digits(whole) + FractionCents(fraction)) else None
  }

  function DropDollar(s: string): string {
    if s != "" && s[0] == '$' then s[1..] else s
  }

  /** What follows the sign, without the currency symbol and the white space around it. */
  function Stripped(s: string): string {
    TrimStart(DropDollar(TrimStart(s)))
  }

  function ParseAmount(value: Option<string>): Result<int, AmountError> {
    var raw := if value.Some? then Trim(value.value) else "";
    if raw == "" then Err(MissingOrBlank)
    else
      var signed := raw[0] == '+' || raw[0] == '-';
      var body := ParseBody(Stripped(if signed then raw[1..] else raw));
      if body.None? then Err(Malformed)
      else Ok(if raw[0] == '-' then -body.value else body.value)
  }

  // ----- the parser accepts exactly the grammar

  lemma {:induction false} GroupsAreGrouped(first: string, groups: seq<string>)
    requires Groups(first, groups)
    ensures IsGrouped(CommaJoined(first, groups))
    decreases |groups|
  {
    var n := |groups| - 1;
    var front := CommaJoined(first, groups[..n]);
    if n > 0 {
      assert Groups(first, groups[..n]);
      GroupsAreGrouped(first, groups[..n]);
    }
    assert CommaJoined(first, groups) == front + "," + groups[n];
    assert n == 0 ==> front == first;
    assert AllDigits(groups[n]) && AllDigits(first);
    hide Groups, CommaJoined, IsGrouped;
    GroupAdds(front, groups[n]);
  }

  lemma GroupAdds(front: string, last: string)
    requires (1 <= |front| <= 3 && AllDigits(front)) || IsGrouped(front)
    requires |last| == 3 && AllDigits(last)
    ensures IsGrouped(front + "," + last)
  {
    var s := front + "," + last;
    GroupedIsLong(front);
    hide *;
    assert s[|front|] == ',' && s[..|s| - 4] == front && s[|s| - 3..] == last;
    GroupedByLast(s);
  }

  lemma GroupedIsLong(s: string)
    ensures IsGrouped(s) ==> |s| >= 5
  {}

  lemma GroupedByLast(s: string)
    requires |s| >= 5 && s[|s| - 4] == ',' && AllDigits(s[|s| - 3..])
    requires (|s| <= 7 && AllDigits(s[..|s| - 4])) || IsGrouped(s[..|s| - 4])
    ensures IsGrouped(s)
  {
    hide AllDigits;
  }

  lemma {:induction false} GroupedHasGroups(s: string) returns (first: string, groups: seq<string>)
    requires IsGrouped(s)
    ensures Groups(first, groups) && CommaJoined(first, groups) == s
    decreases |s|
  {
    var front, last := s[..|s| - 4], s[|s| - 3..];
    assert s == front + "," + last;
    if |front| <= 3 && AllDigits(front) {
      first, groups := front, [last];
      assert groups[..0] == [];
    } else {
      first, groups := GroupedHasGroups(front);
      assert (groups + [last])[..|groups|] == groups;
      groups := groups + [last];
    }
  }

  /** The code's view of a whole part is the regular expression's. */
  lemma ValidPartsAre(p: Parts)
    ensures p.Valid() <==>
              && p.sign in ["", "+", "-"] && AllSpaces(p.gap)
              && p.dollar in ["", "$"] && AllSpaces(p.gap2)
              && (p.fraction.Some? ==> IsFraction(p.fraction.value))
              && (IsWhole(p.whole) || (p.whole == "" && p.fraction.Some?))
    ensures p.Unsigned() == 100 * Digits(p.whole) + if p.fraction.Some? then FractionCents(p.fraction.value) else 0
  {
    hide IsGrouped, AllSpaces, Digits, CommaJoined;
    if IsGrouped(p.whole) {
      var first, groups := GroupedHasGroups(p.whole);
    }
    if first, groups :| Groups(first, groups) && p.whole == CommaJoined(first, groups) {
      GroupsAreGrouped(first, groups);
    }
    hide Groups;
  }

  lemma {:induction false} SpacesThen(gap: string, rest: string)
    requires AllSpaces(gap) && (rest == "" || !IsSpace(rest[0]))
    ensures TrimStart(gap + rest) == rest
    decreases |gap|
  {
    if gap == "" {
      assert gap + rest == rest;
    } else {
      assert (gap + rest)[1..] == gap[1..] + rest;
      SpacesThen(gap[1..], rest);
    }
  }

  lemma {:induction false} TrimStartSplits(s: string) returns (gap: string)
    ensures AllSpaces(gap) && s == gap + TrimStart(s)
    ensures TrimStart(s) == "" || !IsSpace(TrimStart(s)[0])
    decreases |s|
  {
    if s != "" && IsSpace(s[0]) {
      var more := TrimStartSplits(s[1..]);
      gap := [s[0]] + more;
    } else {
      gap := "";
    }
  }

  lemma {:induction false} WholeHasNoDot(s: string)
    requires IsWhole(s)
    ensures '.' !in s && s != "" && IsDigit(s[0])
    decreases |s|
  {
    if IsGrouped(s) {
      var front, back := s[..|s| - 4], s[|s| - 3..];
      if !AllDigits(front) || |front| > 3 {
        WholeHasNoDot(front);
      }
      assert s == front + [','] + back;
      forall i | 0 <= i < |s| ensures s[i] != '.' {
        if i < |front| {
          assert s[i] == front[i];
        } else if i > |front| {
          assert s[i] == back[i - |front| - 1];
        }
      }
    }
  }

  lemma {:induction false} DotFoundAfter(whole: string, rest: string)
    requires '.' !in whole && (rest == "" || rest[0] == '.')
    ensures FindDot(whole + rest) == |whole|
    decreases |whole|
  {
    if whole == "" {
      assert whole + rest == rest;
    } else {
      assert (whole + rest)[1..] == whole[1..] + rest;
      DotFoundAfter(whole[1..], rest);
    }
  }

  lemma BodyParses(p: Parts)
    requires p.Valid()
    ensures ParseBody(p.Body()) == Some(p.Unsigned())
    ensures p.Body() != "" && (IsDigit(p.Body()[0]) || p.Body()[0] == '.')
  {
    hide *;
    ValidPartsAre(p);
    BodyIs(p);
    if IsWhole(p.whole) {
      WholeHasNoDot(p.whole);
    }
    if p.fraction.Some? {
      FractionParses(p.whole, p.fraction.value);
    } else {
      WholeParses(p.whole);
    }
  }

  lemma BodyIs(p: Parts)
    ensures p.fraction.None? ==> p.Body() == p.whole
    ensures p.fraction.Some? ==> p.Body() == p.whole + ("." + p.fraction.value)
    ensures p.Body() != "" ==> p.Body()[0] == if p.whole != "" then p.whole[0] else '.'
  {
    assert p.whole + "" == p.whole;
  }

  lemma WholeParses(whole: string)
    requires IsWhole(whole) && '.' !in whole
    ensures ParseBody(whole) == Some(100 * Digits(whole))
  {
    hide IsWhole, Digits, FindDot;
    DotFoundAfter(whole, "");
    assert whole + "" == whole;
  }

  lemma FractionParses(whole: string, fraction: string)
    requires whole == "" || (IsWhole(whole) && '.' !in whole)
    requires IsFraction(fraction)
    ensures ParseBody(whole + ("." + fraction)) == Some(100 * Digits(whole) + FractionCents(fraction))
  {
    hide IsWhole, IsFraction, Digits, FractionCents, FindDot;
    var body := whole + ("." + fraction);
    DotFoundAfter(whole, "." + fraction);
    assert body[..|whole|] == whole && body[|whole| + 1..] == fraction;
  }

  lemma StrippedToBody(gap: string, dollar: string, gap2: string, body: string)
    requires AllSpaces(gap) && AllSpaces(gap2) && dollar in ["", "$"]
    requires body != "" && (IsDigit(body[0]) || body[0] == '.')
    ensures Stripped(gap + (dollar + (gap2 + body))) == body
  {
    if dollar == "$" {
      var after := dollar + (gap2 + body);
      SpacesThen(gap, after);
      assert DropDollar(after) == gap2 + body;
      SpacesThen(gap2, body);
    } else {
      assert gap + (dollar + (gap2 + body)) == (gap + gap2) + body;
      SpacesThen(gap + gap2, body);
    }
  }

  lemma UnsignedStart(gap: string, dollar: string, gap2: string, body: string)
    requires AllSpaces(gap) && AllSpaces(gap2) && dollar in ["", "$"]
    requires body != "" && (IsDigit(body[0]) || body[0] == '.')
    ensures var rest := gap + (dollar + (gap2 + body));
            rest != "" && rest[0] != '+' && rest[0] != '-'
  {
    var rest := gap + (dollar + (gap2 + body));
    assert rest[0] == if gap != "" then gap[0] else if dollar != "" then '$'
                      else if gap2 != "" then gap2[0] else body[0];
  }

  lemma SignedParses(raw: string, sign: string, rest: string, cents: int)
    requires Trim(raw) == sign + rest && sign in ["", "+", "-"]
    requires rest != "" && rest[0] != '+' && rest[0] != '-'
    requires ParseBody(Stripped(rest)) == Some(cents)
    ensures ParseAmount(Some(raw)) == Ok(if sign == "-" then -cents else cents)
  {
    hide Trim, Stripped, ParseBody;
    if sign == "" {
      assert Trim(raw) == rest;
    } else {
      assert Trim(raw)[1..] == rest;
    }
  }

  /** Every text the regular expression matches is read as the amount it denotes. */
  lemma GrammarParses(p: Parts, raw: string)
    requires p.Valid() && Trim(raw) == p.Text()
    ensures ParseAmount(Some(raw)) == Ok(p.Cents())
  {
    hide *;
    var body := p.Body();
    var rest := p.gap + (p.dollar + (p.gap2 + body));
    PartsSpelled(p);
    BodyParses(p);
    StrippedToBody(p.gap, p.dollar, p.gap2, body);
    UnsignedStart(p.gap, p.dollar, p.gap2, body);
    SignedParses(raw, p.sign, rest, p.Unsigned());
  }

  lemma PartsSpelled(p: Parts)
    requires p.Valid()
    ensures AllSpaces(p.gap) && AllSpaces(p.gap2) && p.dollar in ["", "$"] && p.sign in ["", "+", "-"]
    ensures p.Text() == p.sign + (p.gap + (p.dollar + (p.gap2 + p.Body())))
    ensures p.Cents() == if p.sign == "-" then -p.Unsigned() else p.Unsigned()
  {
    hide AllSpaces, Groups, CommaJoined, Digits;
  }

  lemma StrippedFrom(s: string) returns (gap: string, dollar: string, gap2: string)
    ensures AllSpaces(gap) && AllSpaces(gap2) && dollar in ["", "$"]
    ensures s == gap + (dollar + (gap2 + Stripped(s)))
  {
    gap := TrimStartSplits(s);
    var after := TrimStart(s);
    dollar := if after != "" && after[0] == '$' then "$" else "";
    gap2 := TrimStartSplits(DropDollar(after));
    assert after == dollar + DropDollar(after);
  }

  lemma ParsedBodyIsGrammatical(body: string)
    returns (whole: string, fraction: Option<string>)
    requires ParseBody(body).Some?
    ensures body == whole + if fraction.Some? then "." + fraction.value else ""
    ensures fraction.Some? ==> IsFraction(fraction.value)
    ensures IsWhole(whole) || (whole == "" && fraction.Some?)
  {
    hide IsWhole, IsFraction;
    var i := FindDot(body);
    whole := body[..i];
    if i == |body| {
      fraction := None;
      assert whole == body && body == whole + "";
    } else {
      fraction := Some(body[i + 1..]);
      assert body == whole + ("." + fraction.value);
    }
  }

  /** Every text that is read as an amount is one the regular expression matches. */
  lemma ParsedIsGrammatical(raw: string) returns (p: Parts)
    requires ParseAmount(Some(raw)).Ok?
    ensures p.Valid() && p.Text() == Trim(raw)
  {
    hide Trim, Stripped, ParseBody, IsWhole, IsFraction, AllSpaces;
    var t := Trim(raw);
    var sign := if t[0] == '+' || t[0] == '-' then [t[0]] else "";
    var rest := t[|sign|..];
    var gap, dollar, gap2 := StrippedFrom(rest);
    var whole, fraction := ParsedBodyIsGrammatical(Stripped(rest));
    p := Parts(sign, gap, dollar, gap2, whole, fraction);
    assert t == sign + rest;
    ValidPartsAre(p);
  }

  /** The parser accepts exactly the texts of the grammar, and reads each as what it denotes. */
  lemma ParseIsTheGrammar(raw: string)
    ensures ParseAmount(Some(raw)).Ok? <==> exists p: Parts :: p.Valid() && p.Text() == Trim(raw)
    ensures forall p: Parts | p.Valid() && p.Text() == Trim(raw) :: ParseAmount(Some(raw)) == Ok(p.Cents())
  {
    if ParseAmount(Some(raw)).Ok? {
      var p := ParsedIsGrammatical(raw);
    }
    forall p: Parts | p.Valid() && p.Text() == Trim(raw) ensures ParseAmount(Some(raw)) == Ok(p.Cents()) {
      GrammarParses(p, raw);
    }
  }

  // ----- printing, then parsing

  /** Digits are read in place, most significant first, and anything else is passed over. */
  lemma DigitsOfSnoc(s: string, c: char)
    ensures Digits(s + [c]) == if '0' <= c <= '9' then 10 * Digits(s) + (c as int - 48) else Digits(s)
    ensures Digits("") == 0
  {
    assert (s + [c])[..|s|] == s;
  }

  lemma {:induction false} DecimalDenotes(n: nat)
    ensures Digits(Decimal(n)) == n
  {
    if n < 10 {
      DigitsOfSnoc("", DigitChar(n));
      assert Decimal(n) == "" + [DigitChar(n)];
    } else {
      var front, last := Decimal(n / 10), DigitChar(n % 10);
      DecimalDenotes(n / 10);
      DigitsOfSnoc(front, last);
      assert Decimal(n) == front + [last];
      hide Digits, Decimal;
    }
  }

  lemma {:induction false} DecimalIsDigits(n: nat)
    ensures AllDigits(Decimal(n)) && Decimal(n) != ""
    ensures n < 10 ==> |Decimal(n)| == 1
    ensures n < 100 ==> |Decimal(n)| <= 2
    ensures n < 1000 ==> |Decimal(n)| <= 3
  {
    if n >= 10 {
      DecimalIsDigits(n / 10);
      assert Decimal(n) == Decimal(n / 10) + [DigitChar(n % 10)];
      hide Decimal;
    }
  }

  lemma TripleDenotes(s: string, n: nat)
    requires n < 1000
    ensures Digits(s + "," + Triple(n)) == 1000 * Digits(s) + n
  {
    var a, b, c := DigitChar(n / 100), DigitChar(n / 10 % 10), DigitChar(n % 10);
    DigitsOfSnoc(s, ',');
    DigitsOfSnoc(s + ",", a);
    DigitsOfSnoc(s + "," + [a], b);
    DigitsOfSnoc(s + "," + [a] + [b], c);
    assert s + "," + Triple(n) == s + "," + [a] + [b] + [c];
  }

  lemma {:induction false} GroupedDenotes(n: nat)
    ensures Digits(Grouped(n)) == n && IsWhole(Grouped(n))
    ensures n >= 1000 ==> IsGrouped(Grouped(n))
  {
    if n < 1000 {
      DecimalDenotes(n);
      DecimalIsDigits(n);
    } else {
      var front, back := Grouped(n / 1000), Triple(n % 1000);
      var s := Grouped(n);
      GroupedDenotes(n / 1000);
      TripleDenotes(front, n % 1000);
      assert s == front + [','] + back && s[..|s| - 4] == front && s[|s| - 3..] == back;
      if n / 1000 < 1000 {
        DecimalIsDigits(n / 1000);
      }
    }
  }

  lemma FractionDenotes(n: nat)
    ensures var fraction := [DigitChar(n / 10 % 10), DigitChar(n % 10)];
            IsFraction(fraction) && FractionCents(fraction) == n % 100
  {
    var a, b := DigitChar(n / 10 % 10), DigitChar(n % 10);
    DigitsOfSnoc("", a);
    DigitsOfSnoc([a], b);
    assert "" + [a] == [a] && [a] + [b] == [a, b];
    assert n % 100 == 10 * (n / 10 % 10) + n % 10;
  }

  lemma MoneyLayout(sign: string, whole: string, fraction: string)
    ensures sign + ("" + ("$" + ("" + (whole + ("." + fraction))))) == sign + "$" + whole + "." + fraction
    ensures "" + "$" == "$" && "-" + "$" == "-$"
  {}

  lemma {:induction false} DecimalLeads(n: nat)
    requires n > 0
    ensures Decimal(n)[0] != '0'
  {
    if n >= 10 {
      DecimalLeads(n / 10);
    }
  }

  /** Commas from a thousand on, and no leading zero. */
  lemma {:induction false} GroupedLeads(n: nat)
    ensures IsGrouped(Grouped(n)) <==> n >= 1000
    ensures n > 0 ==> Grouped(n)[0] != '0'
    ensures n == 0 ==> Grouped(n) == "0"
  {
    if n < 1000 {
      DecimalIsDigits(n);
      if n > 0 {
        DecimalLeads(n);
      }
    } else {
      GroupedLeads(n / 1000);
      GroupedDenotes(n);
      hide IsGrouped;
      assert Grouped(n)[0] == Grouped(n / 1000)[0];
    }
  }

  /** What the printer prints is a text of the grammar, denoting the cents printed: a minus sign
      if negative, a dollar sign, whole dollars with commas from a thousand on and no needless
      zero, and two digits of cents. */
  lemma MoneyIsGrammatical(cents: int) returns (p: Parts)
    ensures p.Valid() && p.Text() == Money(cents) && p.Cents() == cents
    ensures p.sign == (if cents < 0 then "-" else "") && p.dollar == "$" && p.gap == "" && p.gap2 == ""
    ensures p.fraction.Some? && |p.fraction.value| == 2
    ensures p.whole != "" && (p.whole[0] == '0' ==> p.whole == "0")
    ensures -100_000 < cents < 100_000 <==> forall i | 0 <= i < |p.whole| :: p.whole[i] != ','
  {
    var n := Abs(cents);
    var fraction := [DigitChar(n / 10 % 10), DigitChar(n % 10)];
    p := Parts(if cents < 0 then "-" else "", "", "$", "", Grouped(n / 100), Some(fraction));
    GroupedDenotes(n / 100);
    GroupedLeads(n / 100);
    FractionDenotes(n);
    ValidPartsAre(p);
    MoneyLayout(p.sign, p.whole, fraction);
    assert IsGrouped(p.whole) ==> p.whole[|p.whole| - 4] == ',';
    assert !IsGrouped(p.whole) ==> AllDigits(p.whole);
    hide IsGrouped, IsFraction, Digits, FractionCents, Grouped, Parts.Valid, Parts.Unsigned;
  }

  lemma MoneyIsTrimmed(cents: int)
    ensures Trim(Money(cents)) == Money(cents)
  {
    var text := Money(cents);
    hide Grouped;
    assert text[0] in "-$" && IsDigit(text[|text| - 1]);
    NoSpaceSymbols(text[0], text[|text| - 1]);
    hide IsSpace, Money;
  }

  lemma NoSpaceSymbols(first: char, last: char)
    requires first in "-$" && IsDigit(last)
    ensures !IsSpace(first) && !IsSpace(last)
  {}

  /** Whole cents survive being printed and read back, at any size and with either sign. */
  lemma MoneyRoundTrips(cents: int)
    ensures ParseAmount(Some(Money(cents))) == Ok(cents)
  {
    var p := MoneyIsGrammatical(cents);
    MoneyIsTrimmed(cents);
    hide Money, Trim, ParseAmount, Parts.Valid, Parts.Text, Parts.Cents;
    GrammarParses(p, Money(cents));
  }

  /** An amount that is absent, or nothing but white space, is reported as missing; any other
      that is not read is malformed. */
  lemma BlankIsMissing(raw: string)
    ensures ParseAmount(None) == Err(MissingOrBlank)
    ensures ParseAmount(Some(raw)) == Err(MissingOrBlank) <==> forall i | 0 <= i < |raw| :: IsSpace(raw[i])
  {
    var before, after := TrimMeans(raw);
    hide IsSpace, Trim, Stripped, ParseBody;
  }

  /** One digit after the point is tens of cents. */
  lemma OneDigitIsTens()
    ensures ParseAmount(Some("3.5")) == Ok(350)
  {
    var p := Parts("", "", "", "", "3", Some("5"));
    assert p.Text() == "3.5" && AllSpaces("") && p.Valid();
    NotTrimmed();
    DigitsOfSnoc("", '3');
    DigitsOfSnoc("", '5');
    assert "" + ['3'] == "3" && "" + ['5'] == "5";
    assert p.Cents() == 350;
    hide *;
    GrammarParses(p, "3.5");
  }

  lemma NotTrimmed()
    ensures Trim("3.5") == "3.5"
  {
    var s := "3.5";
    assert !IsSpace('3') && !IsSpace('5') && s[0] == '3' && s[|s| - 1] == '5';
    hide IsSpace;
    assert TrimStart(s) == s && TrimEnd(s) == s;
  }
}
