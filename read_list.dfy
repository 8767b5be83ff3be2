/** The parser for the value of `only=`: a list `{n1,n2,...}` of decimal
    numbers. Reading starts after the opening brace and stops at the first
    closing one; digits accumulate into the current number, a comma ends it,
    and the number in progress is appended once more after the closing brace.
    Its reference is "split the body on commas, read each field in base 10". */
module OnlyList {

  predicate IsDigit(c: char) {
    '0' <= c <= '9'
  }

  /** The characters the list body may hold. */
  predicate ListChar(c: char) {
    c == ',' || IsDigit(c)
  }

  function DigitValue(c: char): (d: nat)
    requires IsDigit(c)
    ensures d < 10
  {
    (c as int) - ('0' as int)
  }

  function DigitChar(d: nat): (c: char)
    requires d < 10
    ensures IsDigit(c) && DigitValue(c) == d
  {
    ('0' as int + d) as char
  }

  predicate AllDigits(s: string) {
    forall i :: 0 <= i < |s| ==> IsDigit(s[i])
  }

  predicate CommaFree(s: string) {
    forall i :: 0 <= i < |s| ==> s[i] != ','
  }

  predicate AllListChars(s: string) {
    forall i :: 0 <= i < |s| ==> ListChar(s[i])
  }

  /** The base-10 value of a run of digits, most significant first; an empty run is 0. */
  function RunValue(run: string): nat
    requires AllDigits(run)
  {
    if run == [] then 0 else 10 * RunValue(run[..|run| - 1]) + DigitValue(run[|run| - 1])
  }

  /** The comma-separated fields of `s`, left to right; `s` without a comma is one field. */
  function Fields(s: string): (fs: seq<string>)
    ensures |fs| >= 1
    ensures forall k :: 0 <= k < |fs| ==> CommaFree(fs[k])
    ensures AllListChars(s) ==> forall k :: 0 <= k < |fs| ==> AllDigits(fs[k])
  {
    if s == [] then [[]]
    else
      var fs := Fields(s[..|s| - 1]);
      var c := s[|s| - 1];
      if c == ',' then fs + [[]]
      else fs[..|fs| - 1] + [fs[|fs| - 1] + [c]]
  }

  function Values(fs: seq<string>): (vs: seq<nat>)
    requires forall k :: 0 <= k < |fs| ==> AllDigits(fs[k])
    ensures |vs| == |fs|
  {
    if fs == [] then [] else Values(fs[..|fs| - 1]) + [RunValue(fs[|fs| - 1])]
  }

  /** The numbers a list body denotes: one per comma-separated field. */
  function ParseBody(body: string): seq<nat>
    requires AllListChars(body)
  {
    Values(Fields(body))
  }

  /** The index of the first '}' at or after `i`, or |s| if there is none. */
  function CloseFrom(s: string, i: nat): (c: nat)
    requires i <= |s|
    ensures i <= c <= |s|
    ensures c < |s| ==> s[c] == '}'
    ensures forall j :: i <= j < c ==> s[j] != '}'
    decreases |s| - i
  {
    if i == |s| || s[i] == '}' then i else CloseFrom(s, i + 1)
  }

  /** What the parser needs: a '}' after the first character, and only digits
      and commas between the first character and that '}'. */
  predicate WellFormedList(s: string) {
    1 <= |s| && CloseFrom(s, 1) < |s| && AllListChars(s[1..CloseFrom(s, 1)])
  }

  /** The reference meaning of a list: the numbers of its body. */
  function ParseList(s: string): seq<nat>
    requires WellFormedList(s)
  {
    ParseBody(s[1..CloseFrom(s, 1)])
  }

  /** One more character of the body: a comma closes the last number and starts
      a new one at 0, a digit extends the last number in base 10. */
  lemma ParseBodySnoc(s: string, c: char)
    requires AllListChars(s) && ListChar(c)
    ensures AllListChars(s + [c])
    ensures var p, q := ParseBody(s), ParseBody(s + [c]);
      && |p| >= 1 && |q| >= 1
      && (c == ',' ==> q[..|q| - 1] == p && q[|q| - 1] == 0)
      && (c != ',' ==> q[..|q| - 1] == p[..|p| - 1] && q[|q| - 1] == 10 * p[|p| - 1] + DigitValue(c))
  {
    var t := s + [c];
    assert t[..|t| - 1] == s;
    var fs := Fields(s);
    var ft := Fields(t);
    if c == ',' {
      assert ft == fs + [[]];
      assert ft[..|ft| - 1] == fs;
    } else {
      var last := fs[|fs| - 1] + [c];
      assert ft == fs[..|fs| - 1] + [last];
      assert ft[..|ft| - 1] == fs[..|fs| - 1];
      assert last[..|last| - 1] == fs[|fs| - 1];
      assert Values(fs) == Values(fs[..|fs| - 1]) + [RunValue(fs[|fs| - 1])];
    }
  }

  /** The parser as the source writes it. It appends to the numbers already in
      `onlyList`, as a second `only=` in the configuration does. */
  method ReadList(onlyList: seq<int>, second: string) returns (res: seq<int>)
    requires WellFormedList(second)
    ensures res == onlyList + ParseList(second)
  {
    ghost var close := CloseFrom(second, 1);
    ghost var seen: string := [];
    ghost var parsed: seq<nat> := ParseBody(seen);
    res := onlyList;
    var i := 1;
    var nb := 0;
    while second[i] != '}'
      invariant 1 <= i <= close
      invariant seen == second[1..i]
      invariant AllListChars(seen) && parsed == ParseBody(seen) && |parsed| >= 1
      invariant res == onlyList + parsed[..|parsed| - 1] && nb == parsed[|parsed| - 1]
      decreases close - i
    {
      NextListChar(second, i);
      ParseBodySnoc(seen, second[i]);
      ghost var next := ParseBody(seen + [second[i]]);
      if second[i] != ',' {
        var c := second[i];
        nb := 10 * nb + DigitValue(c);
      } else {
        assert parsed[..|parsed| - 1] + [parsed[|parsed| - 1]] == parsed;
        res := res + [nb];
        nb := 0;
      }
      seen, parsed := seen + [second[i]], next;
      i := i + 1;
    }
    assert parsed[..|parsed| - 1] + [parsed[|parsed| - 1]] == parsed;
    res := res + [nb];
  }

  /** Inside the body of a well-formed list, the next character is a digit or a
      comma, and reading it extends what has been read by one character. */
  lemma NextListChar(s: string, i: nat)
    requires WellFormedList(s)
    requires 1 <= i < CloseFrom(s, 1)
    ensures ListChar(s[i]) && s[1..i + 1] == s[1..i] + [s[i]]
  {
    assert s[i] == s[1..CloseFrom(s, 1)][i - 1];
  }

  lemma {:induction false} FieldsCount(s: string)
    ensures |Fields(s)| == multiset(s)[','] + 1
  {
    if s != [] {
      var t := s[..|s| - 1];
      FieldsCount(t);
      assert s == t + [s[|s| - 1]];
      assert multiset(s) == multiset(t) + multiset{s[|s| - 1]};
    }
  }

  /** Count: a body with n commas yields exactly n + 1 numbers. */
  lemma ParseBodyCount(body: string)
    requires AllListChars(body)
    ensures |ParseBody(body)| == multiset(body)[','] + 1
  {
    FieldsCount(body);
  }

  /** `{}` yields the single value 0. */
  lemma EmptyListIsZero()
    ensures WellFormedList("{}") && ParseList("{}") == [0]
  {
    assert CloseFrom("{}", 1) == 1;
    assert "{}"[1..1] == [];
  }

  /** The decimal rendering of a number, most significant digit first, without leading zeros. */
  function Decimal(n: nat): (s: string)
    ensures |s| >= 1 && AllDigits(s)
  {
    if n < 10 then [DigitChar(n)] else Decimal(n / 10) + [DigitChar(n % 10)]
  }

  /** Joins fields with commas. */
  function Join(fs: seq<string>): string
    requires |fs| >= 1
  {
    if |fs| == 1 then fs[0] else Join(fs[..|fs| - 1]) + [','] + fs[|fs| - 1]
  }

  function Decimals(xs: seq<nat>): (ds: seq<string>)
    ensures |ds| == |xs|
    ensures forall k :: 0 <= k < |ds| ==> ds[k] == Decimal(xs[k])
  {
    if xs == [] then [] else Decimals(xs[..|xs| - 1]) + [Decimal(xs[|xs| - 1])]
  }

  /** The list as a configuration file writes it: `{n1,n2,...}`. */
  function FormatList(xs: seq<nat>): string
    requires |xs| >= 1
  {
    "{" + Join(Decimals(xs)) + "}"
  }

  lemma {:induction false} DecimalRoundTrip(n: nat)
    ensures RunValue(Decimal(n)) == n
  {
    if n >= 10 {
      DecimalRoundTrip(n / 10);
      var d := Decimal(n);
      assert d[..|d| - 1] == Decimal(n / 10);
    } else {
      assert Decimal(n)[..0] == [];
    }
  }

  lemma {:induction false} FieldsOfOneField(f: string)
    requires CommaFree(f)
    ensures Fields(f) == [f]
  {
    if f != [] {
      assert f[..|f| - 1] + [f[|f| - 1]] == f;
      FieldsOfOneField(f[..|f| - 1]);
    }
  }

  lemma {:induction false} FieldsAfterComma(s: string, f: string)
    requires CommaFree(f)
    ensures Fields(s + [','] + f) == Fields(s) + [f]
  {
    var t := s + [','] + f;
    if f == [] {
      assert t[..|t| - 1] == s;
    } else {
      var g := f[..|f| - 1];
      assert t[..|t| - 1] == s + [','] + g;
      FieldsAfterComma(s, g);
      assert g + [f[|f| - 1]] == f;
    }
  }

  /** Splitting undoes joining, for comma-free fields. */
  lemma {:induction false} FieldsOfJoin(fs: seq<string>)
    requires |fs| >= 1
    requires forall k :: 0 <= k < |fs| ==> CommaFree(fs[k])
    ensures Fields(Join(fs)) == fs
  {
    if |fs| == 1 {
      FieldsOfOneField(fs[0]);
    } else {
      var init := fs[..|fs| - 1];
      FieldsOfJoin(init);
      FieldsAfterComma(Join(init), fs[|fs| - 1]);
      assert init + [fs[|fs| - 1]] == fs;
    }
  }

  lemma {:induction false} JoinChars(fs: seq<string>)
    requires |fs| >= 1
    requires forall k :: 0 <= k < |fs| ==> AllDigits(fs[k])
    ensures AllListChars(Join(fs))
  {
    if |fs| > 1 {
      JoinChars(fs[..|fs| - 1]);
    }
  }

  lemma {:induction false} ValuesOfDecimals(xs: seq<nat>)
    ensures Values(Decimals(xs)) == xs
  {
    if xs != [] {
      var init := xs[..|xs| - 1];
      ValuesOfDecimals(init);
      DecimalRoundTrip(xs[|xs| - 1]);
      assert Decimals(xs)[..|xs| - 1] == Decimals(init);
      assert init + [xs[|xs| - 1]] == xs;
    }
  }

  /** Round trip: a non-empty list written as `{n1,...,nk}` parses back to exactly n1, ..., nk. */
  lemma ParseFormatRoundTrip(xs: seq<nat>)
    requires |xs| >= 1
    ensures WellFormedList(FormatList(xs)) && ParseList(FormatList(xs)) == xs
  {
    var ds := Decimals(xs);
    var body := Join(ds);
    var s := FormatList(xs);
    forall k | 0 <= k < |ds|
      ensures CommaFree(ds[k])
    {
    }
    JoinChars(ds);
    assert s[1..1 + |body|] == body;
    assert s[1 + |body|] == '}';
    assert forall j :: 1 <= j < 1 + |body| ==> s[j] != '}' by {
      forall j | 1 <= j < 1 + |body|
        ensures s[j] != '}'
      {
        assert s[j] == body[j - 1];
      }
    }
    CloseFromFirst(s, 1, 1 + |body|);
    FieldsOfJoin(ds);
    ValuesOfDecimals(xs);
  }

  lemma {:induction false} CloseFromFirst(s: string, i: nat, c: nat)
    requires i <= c < |s| && s[c] == '}'
    requires forall j :: i <= j < c ==> s[j] != '}'
    ensures CloseFrom(s, i) == c
    decreases c - i
  {
    if i < c {
      CloseFromFirst(s, i + 1, c);
    }
  }
}
