/**
 Keys of the shared rows-counts dictionary. Client `number` owns exactly two
 keys, `inserted_<number>` and `failed_<number>`, where `<number>` is Python's
 `str(number)`; totals are later selected by `str.startswith`.
 */
module Keys {

  /** Python's `s.startswith(prefix)`. */
  predicate StartsWith(s: string, prefix: string)
  {
    |prefix| <= |s| && s[..|prefix|] == prefix
  }

  predicate IsDigit(c: char)
  {
    '0' <= c <= '9'
  }

  predicate AllDigits(s: string)
  {
    forall i :: 0 <= i < |s| ==> IsDigit(s[i])
  }

  function DigitChar(d: nat): (c: char)
    requires d < 10
    ensures IsDigit(c) && c as int - '0' as int == d
  {
    ('0' as int + d) as char
  }

  /** `str(n)` for a non-negative integer: decimal digits, no leading zero. */
  function DecimalString(n: nat): (s: string)
    ensures |s| >= 1 && AllDigits(s)
    ensures s[0] == '0' ==> n == 0
    decreases n
  {
    if n < 10 then [DigitChar(n)] else DecimalString(n / 10) + [DigitChar(n % 10)]
  }

  /** `int(s)` for a string of decimal digits; the inverse of DecimalString. */
  function DecimalValue(s: string): nat
    requires AllDigits(s)
  {
    if s == [] then 0 else DecimalValue(s[..|s| - 1]) * 10 + (s[|s| - 1] as int - '0' as int)
  }

  lemma {:induction false} DecimalRoundTrip(n: nat)
    ensures DecimalValue(DecimalString(n)) == n
    decreases n
  {
    var s := DecimalString(n);
    if n < 10 {
      assert s[..0] == [];
    } else {
      DecimalRoundTrip(n / 10);
      assert s[..|s| - 1] == DecimalString(n / 10);
    }
  }

  /** Distinct numbers print differently. */
  lemma DecimalStringInjective(a: nat, b: nat)
    requires DecimalString(a) == DecimalString(b)
    ensures a == b
  {
    DecimalRoundTrip(a);
    DecimalRoundTrip(b);
  }

  /** The two counters every client keeps. */
  datatype Counter = Inserted | Failed

  /** The text the aggregation filters on for each counter. */
  function Prefix(c: Counter): string
  {
    match c
    case Inserted => "inserted"
    case Failed => "failed"
  }

  /** `f"inserted_{number}"` and `f"failed_{number}"`. */
  function Key(c: Counter, number: nat): (k: string)
    ensures StartsWith(k, "inserted") <==> c == Inserted
    ensures StartsWith(k, "failed") <==> c == Failed
  {
    var k := Prefix(c) + "_" + DecimalString(number);
    assert k[..|Prefix(c)|] == Prefix(c);
    assert k[0] == Prefix(c)[0];
    k
  }

  /** A key names one counter of one client. */
  lemma KeyInjective(c1: Counter, n1: nat, c2: Counter, n2: nat)
    requires Key(c1, n1) == Key(c2, n2)
    ensures c1 == c2 && n1 == n2
  {
    var k := Key(c1, n1);
    assert c1 == c2 by {
      assert StartsWith(k, "inserted") <==> c1 == Inserted;
      assert StartsWith(k, "inserted") <==> c2 == Inserted;
    }
    var p := |Prefix(c1)| + 1;
    assert k[p..] == DecimalString(n1);
    assert k[p..] == DecimalString(n2);
    DecimalStringInjective(n1, n2);
  }

  /** The keys client `number` writes into the shared dictionary. */
  function OwnKeys(number: nat): set<string>
  {
    {Key(Inserted, number), Key(Failed, number)}
  }

  /** Clients with different numbers never share a key. */
  lemma DistinctClientsOwnDisjointKeys(a: nat, b: nat)
    requires a != b
    ensures OwnKeys(a) !! OwnKeys(b)
  {
    forall c1: Counter, c2: Counter
      ensures Key(c1, a) != Key(c2, b)
    {
      if Key(c1, a) == Key(c2, b) {
        KeyInjective(c1, a, c2, b);
      }
    }
  }
}
