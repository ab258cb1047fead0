/** The summary the view shows above the list: the task counter label and
    whether the empty-state indicator is hidden. */
module Counter {

  predicate IsDigit(c: char) {
    '0' <= c <= '9'
  }

  function DigitChar(d: nat): (c: char)
    requires d < 10
    ensures IsDigit(c) && (c as int) - ('0' as int) == d
  {
    ('0' as int + d) as char
  }

  function DigitValue(c: char): (d: nat)
    requires IsDigit(c)
    ensures d < 10
  {
    (c as int) - ('0' as int)
  }

  /** No leading zero, except in "0" itself. */
  predicate Canonical(s: string) {
    |s| == 1 || (|s| > 1 && s[0] != '0')
  }

  /** Decimal spelling of a non-negative integer, as a JavaScript template
      literal renders an array length. */
  function DecimalString(n: nat): (s: string)
    ensures |s| >= 1
    ensures forall i | 0 <= i < |s| :: IsDigit(s[i])
    ensures Canonical(s)
    decreases n
  {
    if n < 10 then [DigitChar(n)] else DecimalString(n / 10) + [DigitChar(n % 10)]
  }

  /** Reads a string of decimal digits back as a number. */
  function DecimalValue(s: string): nat
    requires forall i | 0 <= i < |s| :: IsDigit(s[i])
  {
    if s == [] then 0
    else DecimalValue(s[..|s| - 1]) * 10 + DigitValue(s[|s| - 1])
  }

  lemma {:induction false} DecimalRoundTrip(n: nat)
    ensures DecimalValue(DecimalString(n)) == n
    decreases n
  {
    var s := DecimalString(n);
    if n >= 10 {
      DecimalRoundTrip(n / 10);
      assert s[..|s| - 1] == DecimalString(n / 10);
    }
  }

  /** A digit string not starting with '0' is worth at least 1. */
  lemma {:induction false} LeadingDigitPositive(s: string)
    requires |s| >= 1 && s[0] != '0'
    requires forall i | 0 <= i < |s| :: IsDigit(s[i])
    ensures DecimalValue(s) >= 1
    decreases |s|
  {
    if |s| > 1 {
      LeadingDigitPositive(s[..|s| - 1]);
    }
  }

  /** DecimalString is the only canonical spelling: every canonical digit
      string is the rendering of the number it denotes. */
  lemma {:induction false} DecimalUnique(s: string)
    requires forall i | 0 <= i < |s| :: IsDigit(s[i])
    requires Canonical(s)
    ensures DecimalString(DecimalValue(s)) == s
    decreases |s|
  {
    if |s| > 1 {
      var p, c := s[..|s| - 1], s[|s| - 1];
      assert s == p + [c];
      LeadingDigitPositive(p);
      DecimalUnique(p);
      var v, n := DecimalValue(p), DecimalValue(s);
      assert n == v * 10 + DigitValue(c);
      assert n / 10 == v && n % 10 == DigitValue(c);
      assert DigitChar(DigitValue(c)) == c;
    } else {
      assert DigitChar(DigitValue(s[0])) == s[0];
    }
  }

  /** The counter text: "1 task" for one task, "N tasks" for any other count. */
  function CounterLabel(n: nat): (caption: string)
    ensures caption == "1 task" <==> n == 1
    ensures n != 1 ==> caption == DecimalString(n) + " tasks"
  {
    var caption := DecimalString(n) + " " + (if n == 1 then "task" else "tasks");
    assert n != 1 ==> caption[|caption| - 1] == 's';
    caption
  }

  /** Different counts never show the same label. */
  lemma CounterLabelInjective(m: nat, n: nat)
    requires CounterLabel(m) == CounterLabel(n)
    ensures m == n
  {
    if m != 1 && n != 1 {
      var l := CounterLabel(m);
      var dm, dn := DecimalString(m), DecimalString(n);
      assert |dm| == |dn|;
      assert dm == l[..|dm|] == dn;
      DecimalRoundTrip(m);
      DecimalRoundTrip(n);
    }
  }

  datatype Summary = Summary(counter: string, emptyHidden: bool)

  /** The part of renderTasks that depends on the list only through its length. */
  function Summarize(count: nat): (v: Summary)
    ensures !v.emptyHidden <==> count == 0
    ensures v.counter == "1 task" <==> count == 1
    ensures v.counter == CounterLabel(count)
  {
    Summary(CounterLabel(count), count != 0)
  }
}
