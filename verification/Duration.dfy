/** Human-readable durations such as `1h30m` or bare seconds: a parser with overflow checks, a greedy
    printer, and the law that what is printed parses back to the same number of seconds. */
module Duration {
  import opened Wrappers

  datatype Error = Empty | Unexpected(c: char) | UnknownUnit(c: char) | Overflow | Invalid
  datatype Result<+T> = Ok(value: T) | Err(error: Error)

  predicate IsDigit(c: char) {
    '0' <= c <= '9'
  }

  function DigitValue(c: char): nat
    requires IsDigit(c)
  {
    c as nat - '0' as nat
  }

  predicate IsUnit(c: char) {
    c in {'s', 'm', 'h', 'd', 'w'}
  }

  /** The seconds in `n` of a unit. */
  function InSeconds(n: nat, unit: char): (t: nat)
    requires IsUnit(unit)
    ensures t >= n
  {
    match unit
    case 's' => n
    case 'm' => n * 60
    case 'h' => n * 3600
    case 'd' => n * 86_400
    case _ => n * 604_800
  }

  /** The code points with the Unicode White_Space property. */
  predicate IsSpace(c: char) {
    var n := c as int;
    || 0x09 <= n <= 0x0D || n == 0x20 || n == 0x85 || n == 0xA0 || n == 0x1680
    || 0x2000 <= n <= 0x200A || n == 0x2028 || n == 0x2029 || n == 0x202F || n == 0x205F || n == 0x3000
  }

  function Trim(s: string): (t: string)
    ensures t != [] ==> !IsSpace(t[0]) && !IsSpace(t[|t| - 1])
    ensures s != [] && !IsSpace(s[0]) && !IsSpace(s[|s| - 1]) ==> t == s
    decreases |s|
  {
    if s == [] then []
    else if IsSpace(s[0]) then Trim(s[1..])
    else if IsSpace(s[|s| - 1]) then Trim(s[..|s| - 1])
    else s
  }

  // ----- the notation -----

  /** A number with its unit. */
  datatype Term = Term(digits: string, unit: char)

  /** Terms followed by a number without a unit, which may be absent and counts seconds. */
  datatype Phrase = Phrase(terms: seq<Term>, tail: string)

  ghost predicate AllDigits(s: string) {
    forall i :: 0 <= i < |s| ==> IsDigit(s[i])
  }

  ghost predicate IsTerm(t: Term) {
    t.digits != [] && AllDigits(t.digits) && IsUnit(t.unit)
  }

  ghost predicate AreTerms(ts: seq<Term>) {
    forall i :: 0 <= i < |ts| ==> IsTerm(ts[i])
  }

  ghost predicate IsPhrase(p: Phrase) {
    AreTerms(p.terms) && AllDigits(p.tail)
  }

  ghost function Decimal(s: string): nat
    requires AllDigits(s)
  {
    if s == [] then 0 else 10 * Decimal(s[..|s| - 1]) + DigitValue(s[|s| - 1])
  }

  ghost function TermsText(ts: seq<Term>): string {
    if ts == [] then [] else ts[0].digits + [ts[0].unit] + TermsText(ts[1..])
  }

  ghost function Text(p: Phrase): string {
    TermsText(p.terms) + p.tail
  }

  ghost function TermValue(t: Term): nat
    requires IsTerm(t)
  {
    InSeconds(Decimal(t.digits), t.unit)
  }

  ghost function TermsSum(ts: seq<Term>): nat
    requires AreTerms(ts)
  {
    if ts == [] then 0
    else
      assert IsTerm(ts[0]);
      TermValue(ts[0]) + TermsSum(ts[1..])
  }

  /** The exact number of seconds a phrase stands for. */
  ghost function Sum(p: Phrase): nat
    requires IsPhrase(p)
  {
    TermsSum(p.terms) + Decimal(p.tail)
  }

  // ----- a reading without overflow -----

  /** The value of `s` after `total` seconds and a pending number, over unbounded integers. */
  ghost function Reading(s: string, total: nat, num: nat, haveNum: bool): Option<nat>
    decreases |s|
  {
    if s == [] then Some(if haveNum then total + num else total)
    else if IsDigit(s[0]) then Reading(s[1..], total, num * 10 + DigitValue(s[0]), true)
    else if !haveNum || !IsUnit(s[0]) then None
    else Reading(s[1..], total + InSeconds(num, s[0]), 0, false)
  }

  /** A pending number is either absent or zero-free to drop. */
  lemma {:induction false} ReadingGrows(s: string, total: nat, num: nat, haveNum: bool)
    requires !haveNum ==> num == 0
    ensures var r := Reading(s, total, num, haveNum); r.Some? ==> r.value >= total + num
    decreases |s|
  {
    if s == [] {
    } else if IsDigit(s[0]) {
      ReadingGrows(s[1..], total, num * 10 + DigitValue(s[0]), true);
    } else if haveNum && IsUnit(s[0]) {
      ReadingGrows(s[1..], total + InSeconds(num, s[0]), 0, false);
    }
  }

  /** Digits extend the pending number. */
  lemma {:induction false} ReadingDigits(d: string, rest: string, total: nat, done: string)
    requires AllDigits(d) && AllDigits(done)
    requires done + d != []
    ensures AllDigits(done + d)
    ensures Reading(d + rest, total, Decimal(done), done != []) == Reading(rest, total, Decimal(done + d), true)
    decreases |d|
  {
    if d == [] {
      assert d + rest == rest && done + d == done;
    } else {
      var next := done + [d[0]];
      assert next[..|next| - 1] == done;
      assert Decimal(next) == 10 * Decimal(done) + DigitValue(d[0]);
      assert (d + rest)[1..] == d[1..] + rest;
      assert done + d == next + d[1..];
      ReadingDigits(d[1..], rest, total, next);
    }
  }

  lemma {:induction false} ReadingTerms(ts: seq<Term>, tail: string, total: nat)
    requires IsPhrase(Phrase(ts, tail))
    ensures Reading(TermsText(ts) + tail, total, 0, false) == Some(total + TermsSum(ts) + Decimal(tail))
    decreases |ts|
  {
    if ts == [] {
      assert TermsText(ts) + tail == tail;
      if tail != [] {
        ReadingDigits(tail, [], total, []);
        assert tail + [] == tail && [] + tail == tail;
      }
    } else {
      var t := ts[0];
      var rest := [t.unit] + (TermsText(ts[1..]) + tail);
      assert TermsText(ts) + tail == t.digits + rest;
      ReadingTerm(t, TermsText(ts[1..]) + tail, total);
      hide Reading, Decimal;
      ReadingTerms(ts[1..], tail, total + TermValue(t));
    }
  }

  lemma ReadingTerm(t: Term, rest: string, total: nat)
    requires IsTerm(t)
    ensures Reading(t.digits + ([t.unit] + rest), total, 0, false) == Reading(rest, total + TermValue(t), 0, false)
  {
    assert [] + t.digits == t.digits;
    ReadingDigits(t.digits, [t.unit] + rest, total, []);
    assert ([t.unit] + rest)[1..] == rest;
    assert !IsDigit(t.unit);
  }

  lemma NumberAlone(digits: string)
    requires AllDigits(digits)
    ensures IsPhrase(Phrase([], digits)) && Text(Phrase([], digits)) == digits && Sum(Phrase([], digits)) == Decimal(digits)
  {
    assert TermsText([]) + digits == digits;
  }

  /** Whatever reads successfully is a phrase. */
  lemma {:induction false} ReadingIsPhrase(s: string, total: nat, pending: string) returns (p: Phrase)
    requires AllDigits(pending)
    requires Reading(s, total, Decimal(pending), pending != []).Some?
    ensures IsPhrase(p) && Text(p) == pending + s
    ensures Reading(s, total, Decimal(pending), pending != []) == Some(total + Sum(p))
    decreases |s|
  {
    hide TermsText, TermsSum;
    if s == [] {
      p := Phrase([], pending);
      assert pending + s == pending;
      NumberAlone(pending);
    } else if IsDigit(s[0]) {
      var next := pending + [s[0]];
      assert next[..|next| - 1] == pending;
      assert next + s[1..] == pending + s;
      p := ReadingIsPhrase(s[1..], total, next);
    } else {
      assert [] + s[1..] == s[1..] && pending + [s[0]] + s[1..] == pending + s;
      var q := ReadingIsPhrase(s[1..], total + InSeconds(Decimal(pending), s[0]), []);
      p := PhraseCons(Term(pending, s[0]), q);
    }
  }

  lemma PhraseCons(t: Term, q: Phrase) returns (p: Phrase)
    requires IsTerm(t) && IsPhrase(q)
    ensures IsPhrase(p) && Text(p) == t.digits + [t.unit] + Text(q) && Sum(p) == TermValue(t) + Sum(q)
  {
    p := Phrase([t] + q.terms, q.tail);
    assert p.terms[1..] == q.terms;
    assert forall i :: 0 <= i < |p.terms| ==> p.terms[i] == if i == 0 then t else q.terms[i - 1];
  }

  /** The one-pass reading accepts exactly the phrases, with their exact sums. */
  lemma ReadingExact(s: string, v: nat)
    ensures Reading(s, 0, 0, false) == Some(v) <==> exists p :: IsPhrase(p) && Text(p) == s && Sum(p) == v
  {
    if Reading(s, 0, 0, false) == Some(v) {
      var p := ReadingIsPhrase(s, 0, []);
      assert [] + s == s;
      assert IsPhrase(p) && Text(p) == s && Sum(p) == v;
    }
    forall p | IsPhrase(p) && Text(p) == s && Sum(p) == v
      ensures Reading(s, 0, 0, false) == Some(v)
    {
      ReadingTerms(p.terms, p.tail, 0);
    }
  }

  // ----- parse -----

  /** Parsing succeeds exactly on the non-empty phrases whose exact sum fits in 64 bits. */
  ghost predicate Parses(s: string, v: nat) {
    Trim(s) != [] && v <= U64_MAX && exists p :: IsPhrase(p) && Text(p) == Trim(s) && Sum(p) == v
  }

  ghost predicate Fits(exact: Option<nat>, v: nat) {
    exact == Some(v) && v <= U64_MAX
  }

  lemma ParsesByReading(input: string)
    ensures forall v: nat :: Parses(input, v) <==> Trim(input) != [] && Fits(Reading(Trim(input), 0, 0, false), v)
  {
    forall v: nat
      ensures Parses(input, v) <==> Trim(input) != [] && Fits(Reading(Trim(input), 0, 0, false), v)
    {
      ReadingExact(Trim(input), v);
    }
  }

  lemma ReadingStep(s: string, i: nat, total: nat, num: nat, haveNum: bool)
    requires i < |s|
    ensures Reading(s[i..], total, num, haveNum)
         == if IsDigit(s[i]) then Reading(s[i + 1..], total, num * 10 + DigitValue(s[i]), true)
            else if !haveNum || !IsUnit(s[i]) then None
            else Reading(s[i + 1..], total + InSeconds(num, s[i]), 0, false)
  {
    assert s[i..][0] == s[i] && s[i..][1..] == s[i + 1..];
  }

  lemma ReadingEnd(s: string, total: nat, num: nat, haveNum: bool)
    ensures Reading(s[|s|..], total, num, haveNum) == Some(if haveNum then total + num else total)
  {
    assert s[|s|..] == [];
  }

  lemma TooLargeByReading(input: string)
    ensures (exists p :: IsPhrase(p) && Text(p) == Trim(input) && Sum(p) > U64_MAX)
       ==> Reading(Trim(input), 0, 0, false).Some? && Reading(Trim(input), 0, 0, false).value > U64_MAX
  {
    if p :| IsPhrase(p) && Text(p) == Trim(input) && Sum(p) > U64_MAX {
      ReadingExact(Trim(input), Sum(p));
    }
  }

  /** Reading with every intermediate value checked against 64 bits. */
  method Parse(input: string) returns (r: Result<nat>)
    ensures forall v: nat :: r == Ok(v) <==> Parses(input, v)
    ensures r != Err(Invalid)
    ensures r == Err(Empty) <==> Trim(input) == []
    ensures (exists p :: IsPhrase(p) && Text(p) == Trim(input) && Sum(p) > U64_MAX) ==> r == Err(Overflow)
    ensures var s := Trim(input);
            && (forall c :: r == Err(Unexpected(c)) ==>
                  exists i :: 0 <= i < |s| && s[i] == c && !IsDigit(c) && (i == 0 || !IsDigit(s[i - 1])))
            && (forall c :: r == Err(UnknownUnit(c)) ==>
                  exists i :: 0 < i < |s| && s[i] == c && !IsDigit(c) && !IsUnit(c) && IsDigit(s[i - 1]))
  {
    hide Reading, Parses, Trim, IsPhrase, Text, Sum, InSeconds;
    TooLargeByReading(input);
    ParsesByReading(input);
    var s := Trim(input);
    if s == [] {
      assert s[|s|..] == s;
      ReadingEnd(s, 0, 0, false);
      return Err(Empty);
    }
    var total: nat, num: nat, haveNum, any := 0, 0, false, false;
    ghost var exact := Reading(s, 0, 0, false);
    assert s[0..] == s;
    for i := 0 to |s|
      invariant total <= U64_MAX && num <= U64_MAX
      invariant !haveNum ==> num == 0
      invariant i > 0 ==> haveNum || any
      invariant haveNum <==> i > 0 && IsDigit(s[i - 1])
      invariant exact == Reading(s[i..], total, num, haveNum)
    {
      var c := s[i];
      ReadingStep(s, i, total, num, haveNum);
      if IsDigit(c) {
        var n := num * 10 + DigitValue(c);
        if num * 10 > U64_MAX || n > U64_MAX {
          ReadingGrows(s[i + 1..], total, n, true);
          return Err(Overflow);
        }
        num, haveNum := n, true;
      } else if !haveNum {
        return Err(Unexpected(c));
      } else if !IsUnit(c) {
        return Err(UnknownUnit(c));
      } else {
        var product := InSeconds(num, c);
        if product > U64_MAX || total + product > U64_MAX {
          ReadingGrows(s[i + 1..], total + product, 0, false);
          return Err(Overflow);
        }
        total, num, haveNum, any := total + product, 0, false, true;
      }
    }
    ReadingEnd(s, total, num, haveNum);
    if haveNum {
      if total + num > U64_MAX {
        return Err(Overflow);
      }
      total := total + num;
      any := true;
    }
    if !any {
      return Err(Invalid);
    }
    return Ok(total);
  }

  // ----- format -----

  /** Decimal digits of a number, without leading zeros. */
  function Digits(n: nat): (s: string)
    ensures s != [] && AllDigits(s) && Decimal(s) == n
    ensures s[0] == '0' ==> s == "0"
  {
    var last := ('0' as nat + n % 10) as char;
    if n < 10 then
      var s := [last];
      assert s[..|s| - 1] == [];
      s
    else
      var s := Digits(n / 10) + [last];
      assert s[..|s| - 1] == Digits(n / 10);
      s
  }

  const UNITS: seq<(char, nat)> := [('w', 604_800), ('d', 86_400), ('h', 3600), ('m', 60), ('s', 1)]

  lemma {:induction false} TermsAppend(ts: seq<Term>, t: Term)
    requires AreTerms(ts)
    requires IsTerm(t)
    ensures TermsText(ts + [t]) == TermsText(ts) + t.digits + [t.unit]
    ensures TermsSum(ts + [t]) == TermsSum(ts) + TermValue(t)
    decreases |ts|
  {
    if ts == [] {
      assert ts + [t] == [t] && [t][1..] == [];
    } else {
      assert (ts + [t])[1..] == ts[1..] + [t] && (ts + [t])[0] == ts[0];
      TermsAppend(ts[1..], t);
    }
  }

  /** Each unit is used at most once, largest first, and no term reaches the next larger unit. */
  ghost predicate Greedy(ts: seq<Term>) {
    && (forall i, j :: 0 <= i < j < |ts| && IsUnit(ts[i].unit) && IsUnit(ts[j].unit) ==>
          InSeconds(1, ts[i].unit) > InSeconds(1, ts[j].unit))
    && (forall i :: 0 <= i < |ts| && IsTerm(ts[i]) ==> Reduced(ts[i]))
  }

  ghost predicate Reduced(t: Term)
    requires IsTerm(t)
  {
    && (t.digits[0] == '0' ==> t == Term("0", 's'))
    && match t.unit
    case 's' => TermValue(t) < 60
    case 'm' => TermValue(t) < 3600
    case 'h' => TermValue(t) < 86_400
    case 'd' => TermValue(t) < 604_800
    case _ => true
  }

  /** The term for the whole units of rank `k` in `s`. */
  lemma NextTerm(k: nat, s: nat)
    requires k < |UNITS| && s >= UNITS[k].1 && (k > 0 ==> s < UNITS[k - 1].1)
    ensures var t := Term(Digits(s / UNITS[k].1), UNITS[k].0);
            && IsTerm(t) && Reduced(t) && InSeconds(1, t.unit) == UNITS[k].1
            && TermValue(t) + s % UNITS[k].1 == s
  {
  }

  lemma GreedySnoc(ts: seq<Term>, t: Term)
    requires AreTerms(ts) && Greedy(ts) && IsTerm(t) && Reduced(t)
    requires forall i :: 0 <= i < |ts| ==> InSeconds(1, ts[i].unit) > InSeconds(1, t.unit)
    ensures AreTerms(ts + [t]) && Greedy(ts + [t])
  {
    hide Reduced, InSeconds;
  }

  lemma ZeroSeconds()
    ensures var zero := [Term("0", 's')];
            TermsText(zero) == "0s" && TermsSum(zero) == 0 && IsPhrase(Phrase(zero, [])) && Greedy(zero)
  {
  }

  lemma NoTerms()
    ensures TermsText([]) == "" && TermsSum([]) == 0 && AreTerms([]) && Greedy([])
  {
  }

  /** The printed form of a duration: reduced terms, the largest units first, that add up to it. */
  ghost predicate Printed(d: nat, ts: seq<Term>, text: string) {
    AreTerms(ts) && ts != [] && Greedy(ts) && text == TermsText(ts) && TermsSum(ts) == d
  }

  /** The largest units first, each as often as it fits. */
  method Format(d: nat) returns (out: string)
    ensures exists ts :: Printed(d, ts, out)
  {
    hide Reduced, Digits, Decimal, InSeconds, TermsText, TermsSum, TermValue, Greedy;
    ZeroSeconds();
    NoTerms();
    var s := d;
    if s == 0 {
      assert Printed(0, [Term("0", 's')], "0s");
      return "0s";
    }
    out := "";
    ghost var ts: seq<Term> := [];
    for k := 0 to |UNITS|
      invariant AreTerms(ts) && Greedy(ts)
      invariant out == TermsText(ts) && TermsSum(ts) + s == d
      invariant k > 0 ==> s < UNITS[k - 1].1
      invariant forall i :: 0 <= i < |ts| ==> k > 0 && InSeconds(1, ts[i].unit) >= UNITS[k - 1].1
    {
      var (unit, mult) := UNITS[k];
      if s >= mult {
        ghost var t := Term(Digits(s / mult), unit);
        NextTerm(k, s);
        TermsAppend(ts, t);
        GreedySnoc(ts, t);
        out := out + Digits(s / mult) + [unit];
        ts := ts + [t];
        s := s % mult;
      }
    }
    assert Printed(d, ts, out);
  }

  /** A printed duration has no blanks around it. */
  lemma PrintedIsTrimmed(ts: seq<Term>)
    requires IsPhrase(Phrase(ts, [])) && ts != []
    ensures TermsText(ts) != [] && Trim(TermsText(ts)) == TermsText(ts)
  {
    hide Trim, Decimal, TermsSum, IsSpace;
    var text, last := TermsText(ts), ts[|ts| - 1];
    assert text[0] == ts[0].digits[0];
    assert ts[..|ts| - 1] + [last] == ts;
    TermsAppend(ts[..|ts| - 1], last);
    assert text[|text| - 1] == last.unit;
    NoBlank(text[0]);
    NoBlank(last.unit);
  }

  lemma NoBlank(c: char)
    ensures IsDigit(c) || IsUnit(c) ==> !IsSpace(c)
  {
  }

  /** Whatever is printed for a 64-bit number of seconds is parsed as that number. */
  lemma PrintedParses(d: nat, ts: seq<Term>, text: string)
    requires d <= U64_MAX && Printed(d, ts, text)
    ensures Parses(text, d)
  {
    hide Greedy, TermsText, TermsSum, Trim;
    PrintedIsTrimmed(ts);
    assert TermsText(ts) + [] == TermsText(ts);
    assert Text(Phrase(ts, [])) == Trim(text) && Sum(Phrase(ts, [])) == d;
  }

  /** Printing any 64-bit number of seconds and parsing the text gives the number back. */
  method RoundTrip(d: nat) returns (text: string, r: Result<nat>)
    requires d <= U64_MAX
    ensures exists ts :: Printed(d, ts, text)
    ensures r == Ok(d)
    ensures forall v: nat :: Parses(text, v) <==> r == Ok(v)
  {
    hide Printed, Parses;
    text := Format(d);
    ghost var ts :| Printed(d, ts, text);
    PrintedParses(d, ts, text);
    r := Parse(text);
  }

  /** Trimming takes blanks off both ends, all of them and nothing else. */
  lemma {:induction false} TrimExact(s: string) returns (a: string, b: string)
    ensures s == a + Trim(s) + b && AllBlank(a) && AllBlank(b)
    ensures Trim(s) != [] ==> !IsSpace(Trim(s)[0]) && !IsSpace(Trim(s)[|Trim(s)| - 1])
    decreases |s|
  {
    hide IsSpace, Trim;
    TrimStep(s);
    a, b := [], [];
    if s != [] {
      if IsSpace(s[0]) {
        a, b := TrimExact(s[1..]);
        Front(s, a, Trim(s), b);
        a := [s[0]] + a;
      } else if IsSpace(s[|s| - 1]) {
        a, b := TrimExact(s[..|s| - 1]);
        Back(s, a, Trim(s), b);
        b := b + [s[|s| - 1]];
      }
    }
  }

  lemma TrimStep(s: string)
    ensures Trim(s) == if s == [] then [] else if IsSpace(s[0]) then Trim(s[1..])
                       else if IsSpace(s[|s| - 1]) then Trim(s[..|s| - 1]) else s
  {
  }

  lemma Front<T>(s: seq<T>, a: seq<T>, t: seq<T>, b: seq<T>)
    requires s != [] && s[1..] == a + t + b
    ensures s == [s[0]] + a + t + b
  {
    assert s == [s[0]] + s[1..];
  }

  lemma Back<T>(s: seq<T>, a: seq<T>, t: seq<T>, b: seq<T>)
    requires s != [] && s[..|s| - 1] == a + t + b
    ensures s == a + t + (b + [s[|s| - 1]])
  {
    assert s == s[..|s| - 1] + [s[|s| - 1]];
  }

  ghost predicate AllBlank(s: string) {
    forall i :: 0 <= i < |s| ==> IsSpace(s[i])
  }

  lemma {:induction false} TrimBefore(a: string, s: string)
    requires AllBlank(a)
    ensures Trim(a + s) == Trim(s)
    decreases |a|
  {
    hide IsSpace;
    if a == [] {
      assert a + s == s;
    } else {
      assert (a + s)[1..] == a[1..] + s;
      TrimBefore(a[1..], s);
    }
  }

  lemma {:induction false} TrimAfter(s: string, b: string)
    requires AllBlank(b) && s != [] && !IsSpace(s[0])
    ensures Trim(s + b) == Trim(s)
    decreases |b|
  {
    if b == [] {
      assert s + b == s;
    } else {
      assert (s + b)[..|s + b| - 1] == s + b[..|b| - 1];
      TrimAfter(s, b[..|b| - 1]);
    }
  }

  lemma Blanks(s: string)
    requires forall i :: 0 <= i < |s| ==> s[i] in {' ', '\t', '\n', '\r'}
    ensures AllBlank(s)
  {
  }

  /** Blanks around a text do not matter. */
  lemma BlanksDoNotMatter(a: string, s: string, b: string, v: nat)
    requires forall i :: 0 <= i < |a| ==> a[i] in {' ', '\t', '\n', '\r'}
    requires forall i :: 0 <= i < |b| ==> b[i] in {' ', '\t', '\n', '\r'}
    requires s != [] && (IsDigit(s[0]) || IsUnit(s[0]))
    ensures Parses(a + s + b, v) <==> Parses(s, v)
  {
    hide Trim;
    Blanks(a);
    Blanks(b);
    assert a + s + b == a + (s + b);
    TrimBefore(a, s + b);
    TrimAfter(s, b);
  }

  /** What each unit stands for, and a number without one. */
  lemma UnitsMean(v: nat)
    ensures Parses("1w", v) <==> v == 7 * 24 * 3600
    ensures Parses("1d", v) <==> v == 24 * 3600
    ensures Parses("1h30m", v) <==> v == 5400
    ensures Parses("1s", v) <==> v == 1
    ensures Parses("90", v) <==> v == 90
  {
    hide Trim, Parses;
    ShortText("1w", v);
    ShortText("1d", v);
    ShortText("1h30m", v);
    ShortText("1s", v);
    ShortText("90", v);
    assert Reading("0m", 3600, 3, true) == Some(5400);
  }

  lemma ShortText(s: string, v: nat)
    requires s != [] && !IsSpace(s[0]) && !IsSpace(s[|s| - 1])
    ensures Parses(s, v) <==> Reading(s, 0, 0, false) == Some(v) && v <= U64_MAX
  {
    ReadingExact(s, v);
  }

  /** No text stands for two different durations. */
  lemma MeaningIsUnique(s: string, v: nat, w: nat)
    requires Parses(s, v) && Parses(s, w)
    ensures v == w
  {
    ReadingExact(Trim(s), v);
    ReadingExact(Trim(s), w);
  }
}
