/** utils/utils.go: merging word lists and parsing comma-separated integers. */
module Utils {
  import opened Wrappers
  import opened Text
  import Seqs

  /**
    MergeUnique(a, b): the items of a ++ b, each kept at its first occurrence.
    The distinct items of `a` come first, in order; after them only items of `b`
    that are not in `a`.
   */
  function MergeUnique(a: seq<string>, b: seq<string>): (r: seq<string>)
    ensures Seqs.NoDups(r)
    ensures Seqs.Elems(r) == Seqs.Elems(a) + Seqs.Elems(b)
    ensures Seqs.Dedup(a) <= r
    ensures forall x :: x in r[|Seqs.Dedup(a)|..] ==> x in b && x !in a
    ensures |r| <= |a| + |b|
    ensures r == a + b <==> Seqs.NoDups(a + b)
  {
    Seqs.DedupAppend(a, b);
    Seqs.DedupIdentityIff(a + b);
    assert Seqs.Elems(a + b) == Seqs.Elems(a) + Seqs.Elems(b);
    Seqs.Dedup(a + b)
  }

  // ---------------------------------------------------------------------------
  // strconv.Atoi on a 64-bit platform

  const MinInt: int := -0x8000_0000_0000_0000
  const MaxInt: int := 0x7FFF_FFFF_FFFF_FFFF

  predicate AllDigits(s: string) {
    forall i :: 0 <= i < |s| ==> IsDigit(s[i])
  }

  function DigitValue(c: char): nat
    requires IsDigit(c)
  {
    c as int - '0' as int
  }

  /** The value of a string of decimal digits, most significant first. */
  function DigitsValue(s: string): nat
    requires AllDigits(s)
  {
    if |s| == 0 then 0 else 10 * DigitsValue(s[..|s| - 1]) + DigitValue(s[|s| - 1])
  }

  /**
    strconv.Atoi: an optional '+' or '-' followed by one or more decimal digits
    whose value fits a 64-bit int; anything else is an error (None).
   */
  function Atoi(s: string): (r: Option<int>)
    ensures r.Some? ==> MinInt <= r.value <= MaxInt
    ensures r.Some? ==> s != [] && (IsDigit(s[0]) || s[0] == '-' || s[0] == '+')
  {
    var digits := if |s| > 0 && (s[0] == '-' || s[0] == '+') then s[1..] else s;
    if |digits| == 0 || !AllDigits(digits) then None
    else
      var n: int := if s[0] == '-' then -(DigitsValue(digits) as int) else DigitsValue(digits);
      if MinInt <= n <= MaxInt then Some(n) else None
  }

  /** The canonical decimal digits of a natural number. */
  function NatDigits(n: nat): (s: string)
    ensures |s| >= 1 && AllDigits(s)
    ensures DigitsValue(s) == n
  {
    if n < 10 then [('0' as int + n) as char]
    else
      var p := NatDigits(n / 10);
      var s := p + [('0' as int + n % 10) as char];
      assert s[..|s| - 1] == p;
      s
  }

  /** strconv.Itoa: the canonical decimal form, with a '-' for negatives. */
  function Decimal(n: int): string {
    if n < 0 then "-" + NatDigits(-n) else NatDigits(n)
  }

  /** Atoi reads back what Itoa writes, for every 64-bit value. */
  lemma AtoiDecimal(n: int)
    requires MinInt <= n <= MaxInt
    ensures Atoi(Decimal(n)) == Some(n)
  {
    var d := NatDigits(if n < 0 then -n else n);
    if n < 0 {
      var s := "-" + d;
      assert s[0] == '-' && s[1..] == d;
      assert -(DigitsValue(d) as int) == n;
    } else {
      assert IsDigit(d[0]);
    }
  }

  // ---------------------------------------------------------------------------
  // ParseIntSlice

  /** The integers of the fields, in order, skipping blank and non-numeric fields. */
  function ParseFields(fields: seq<string>): (r: seq<int>)
    ensures |r| <= |fields|
    ensures forall k :: 0 <= k < |r| ==> MinInt <= r[k] <= MaxInt
  {
    if |fields| == 0 then []
    else
      var f := TrimSpace(fields[0]);
      var rest := ParseFields(fields[1..]);
      if f == "" then rest
      else match Atoi(f)
        case Some(n) => [n] + rest
        case None => rest
  }

  /**
    ParseIntSlice: split on ',', trim each field, drop blank fields and fields
    that are not decimal integers. At most one integer per field.
   */
  function ParseIntSlice(s: string): (r: seq<int>)
    ensures |r| <= |Split(s, ',')|
    ensures s == "" ==> r == []
    ensures forall k :: 0 <= k < |r| ==> MinInt <= r[k] <= MaxInt
  {
    ParseFields(Split(s, ','))
  }

  /**
    One field on its own: it is trimmed, and it yields its integer unless it
    is blank or not a 64-bit decimal integer. With ParseIntSliceConcat this
    fixes the result for every input.
   */
  lemma ParseIntSliceField(f: string)
    requires ',' !in f
    ensures ParseIntSlice(f)
              == if TrimSpace(f) == "" || Atoi(TrimSpace(f)).None? then [] else [Atoi(TrimSpace(f)).value]
  {
    SplitJoin([f], ',');
    assert Split(f, ',') == [f];
    assert [f][1..] == [];
  }

  lemma {:induction false} ParseFieldsConcat(a: seq<string>, b: seq<string>)
    ensures ParseFields(a + b) == ParseFields(a) + ParseFields(b)
  {
    if |a| > 0 {
      assert (a + b)[0] == a[0];
      assert (a + b)[1..] == a[1..] + b;
      ParseFieldsConcat(a[1..], b);
    } else {
      assert a + b == b;
    }
  }

  /** Field order is kept: parsing "a,b" yields the integers of `a` followed by those of `b`. */
  lemma ParseIntSliceConcat(a: string, b: string)
    ensures ParseIntSlice(a + "," + b) == ParseIntSlice(a) + ParseIntSlice(b)
  {
    SplitConcat(a, b, ',');
    ParseFieldsConcat(Split(a, ','), Split(b, ','));
  }

  /** Splitting at one separator splits the two halves independently. */
  lemma SplitConcat(a: string, b: string, sep: char)
    ensures Split(a + [sep] + b, sep) == Split(a, sep) + Split(b, sep)
  {
    var p := Split(a, sep) + Split(b, sep);
    JoinConcat(Split(a, sep), Split(b, sep), sep);
    JoinInjective(Split(a + [sep] + b, sep), p, sep);
  }

  lemma {:induction false} JoinConcat(p: seq<string>, q: seq<string>, sep: char)
    requires |p| >= 1 && |q| >= 1
    ensures Join(p + q, sep) == Join(p, sep) + [sep] + Join(q, sep)
  {
    if |p| == 1 {
      assert (p + q)[1..] == q;
    } else {
      assert (p + q)[1..] == p[1..] + q;
      JoinConcat(p[1..], q, sep);
    }
  }

  /** The decimal forms of a list of integers. */
  function Decimals(ns: seq<int>): (r: seq<string>)
    ensures |r| == |ns|
  {
    seq(|ns|, i requires 0 <= i < |ns| => Decimal(ns[i]))
  }

  /** ParseIntSlice reads back any list of 64-bit integers written comma-separated. */
  lemma {:induction false} ParseIntSliceRoundTrip(ns: seq<int>)
    requires forall k :: 0 <= k < |ns| ==> MinInt <= ns[k] <= MaxInt
    ensures ParseIntSlice(Join(Decimals(ns), ',')) == ns
  {
    var ds := Decimals(ns);
    if |ns| == 0 {
      assert Split("", ',') == [[]];
    } else {
      forall i | 0 <= i < |ds|
        ensures ',' !in ds[i]
      {
        DecimalShape(ns[i]);
      }
      SplitJoin(ds, ',');
      ParseDecimals(ns);
    }
  }

  lemma {:induction false} ParseDecimals(ns: seq<int>)
    requires forall k :: 0 <= k < |ns| ==> MinInt <= ns[k] <= MaxInt
    ensures ParseFields(Decimals(ns)) == ns
  {
    if |ns| > 0 {
      DecimalsCons(ns);
      ParseDecimal(ns[0], Decimals(ns[1..]));
      ParseDecimals(ns[1..]);
      assert ns == [ns[0]] + ns[1..];
    }
  }

  lemma DecimalsCons(ns: seq<int>)
    requires |ns| > 0
    ensures Decimals(ns) == [Decimal(ns[0])] + Decimals(ns[1..])
  {
  }

  lemma ParseDecimal(n: int, rest: seq<string>)
    requires MinInt <= n <= MaxInt
    ensures ParseFields([Decimal(n)] + rest) == [n] + ParseFields(rest)
  {
    var d := Decimal(n);
    DecimalShape(n);
    TrimSpaceOfTrimmed(d);
    AtoiDecimal(n);
    assert ([d] + rest)[1..] == rest;
  }

  /** A decimal form is non-empty and made of digits and a leading '-' only. */
  lemma DecimalShape(n: int)
    ensures Decimal(n) != []
    ensures forall i :: 0 <= i < |Decimal(n)| ==> IsDigit(Decimal(n)[i]) || (i == 0 && Decimal(n)[i] == '-')
    ensures ',' !in Decimal(n)
    ensures !IsSpace(Decimal(n)[0]) && !IsSpace(Decimal(n)[|Decimal(n)| - 1])
  {
  }
}
