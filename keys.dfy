/** The cipher key of src/Key.java: the offset `r` and the step selector `s`
    of the row permutation (step = 2s + 1). The constructor `Key(r, s)` keeps
    both values as given, with no range check. */
module Keys {
  import opened Bits
  import opened Results

  datatype Key = Key(r: int, s: int)
  {
    /** getR */
    function GetR(): int
    {
      r
    }

    /** getS */
    function GetS(): int
    {
      s
    }

    /** equals(Object): true for an object of class Key with the same fields. */
    predicate Equals(o: JavaObject)
    {
      match o
      case KeyObject(k) => r == k.r && s == k.s
      case _ => false
    }

    /** hashCode: `31 * r + s` in Java `int` arithmetic. */
    function HashCode(): int
    {
      Int32(31 * r + s)
    }

    /** toString: `Key{r=<r>, s=<s>}` with both fields in decimal. */
    function ToString(): string
    {
      "Key{r=" + IntToDecimal(r) + ", s=" + IntToDecimal(s) + "}"
    }
  }

  /** What `equals` may be handed: null, an object of another class (a
      subclass of Key included, since the source compares `getClass()`),
      or an object of class Key. */
  datatype JavaObject = Null | OtherObject | KeyObject(key: Key)

  /** The keys the cipher is meant for: r in [0,256), s in [0,128). */
  predicate InRange(k: Key)
  {
    0 <= k.r < 256 && 0 <= k.s < 128
  }

  // ---------------------------------------------------------------------------
  // Accessors and equality

  /** The constructor stores both arguments unchanged and the getters return them. */
  lemma ConstructorKeepsFields(r: int, s: int)
    ensures Key(r, s).GetR() == r && Key(r, s).GetS() == s
  {
  }

  /** `equals` is structural equality on keys, and false for anything else. */
  lemma EqualsIsStructural(k: Key, o: JavaObject)
    ensures k.Equals(o) <==> o == KeyObject(k)
  {
  }

  /** `equals` is reflexive, symmetric and transitive. */
  lemma EqualsIsEquivalence(a: Key, b: Key, c: Key)
    ensures a.Equals(KeyObject(a))
    ensures a.Equals(KeyObject(b)) <==> b.Equals(KeyObject(a))
    ensures a.Equals(KeyObject(b)) && b.Equals(KeyObject(c)) ==> a.Equals(KeyObject(c))
  {
  }

  /** Equal keys have equal hash codes. */
  lemma HashCodeAgreesWithEquals(k: Key, o: JavaObject)
    requires k.Equals(o)
    ensures o.KeyObject? && k.HashCode() == o.key.HashCode()
  {
  }

  /** For a key in range the hash code is `31 * r + s` exactly, with no wrap-around. */
  lemma HashCodeInRange(k: Key)
    requires InRange(k)
    ensures k.HashCode() == 31 * k.r + k.s
    ensures 0 <= k.HashCode() < 31 * 255 + 128
  {
    Int32Identity(31 * k.r + k.s);
  }

  // ---------------------------------------------------------------------------
  // Decimal text, for toString

  predicate IsDigit(c: char)
  {
    '0' <= c <= '9'
  }

  predicate AllDigits(t: string)
  {
    forall i :: 0 <= i < |t| ==> IsDigit(t[i])
  }

  function DigitChar(d: nat): (c: char)
    requires d < 10
    ensures IsDigit(c) && c as int - '0' as int == d
  {
    ('0' as int + d) as char
  }

  /** The decimal digits of `n`, most significant first, no leading zero. */
  function NatToDecimal(n: nat): (t: string)
    ensures |t| >= 1 && AllDigits(t)
  {
    if n < 10 then [DigitChar(n)] else NatToDecimal(n / 10) + [DigitChar(n % 10)]
  }

  /** Java's decimal rendering of an `int`: a minus sign for negative values. */
  function IntToDecimal(x: int): string
  {
    if x < 0 then "-" + NatToDecimal(-x) else NatToDecimal(x)
  }

  /** The number a string of decimal digits denotes. */
  function DecimalValue(t: string): nat
    requires AllDigits(t)
  {
    if |t| == 0 then 0
    else 10 * DecimalValue(t[..|t| - 1]) + (t[|t| - 1] as int - '0' as int)
  }

  /** Reads back a decimal integer in the form IntToDecimal writes. */
  function ParseInt(t: string): Option<int>
  {
    if |t| >= 2 && t[0] == '-' && AllDigits(t[1..]) then Some(-(DecimalValue(t[1..]) as int))
    else if |t| >= 1 && AllDigits(t) then Some(DecimalValue(t))
    else None
  }

  /** The first index of `c` in `t`, or `|t|` when there is none. */
  function IndexOf(t: string, c: char): (i: nat)
    ensures i <= |t| && (i < |t| ==> t[i] == c)
    ensures forall j :: 0 <= j < i ==> t[j] != c
  {
    if |t| == 0 then 0 else if t[0] == c then 0 else 1 + IndexOf(t[1..], c)
  }

  /** Reads back a key in the form ToString writes. */
  function ParseKey(t: string): Option<Key>
  {
    if |t| < 7 || t[..6] != "Key{r=" || t[|t| - 1] != '}' then None
    else
      var body := t[6..|t| - 1];
      var c := IndexOf(body, ',');
      if c + 4 > |body| || body[c..c + 4] != ", s=" then None
      else
        match (ParseInt(body[..c]), ParseInt(body[c + 4..]))
        case (Some(r), Some(s)) => Some(Key(r, s))
        case _ => None
  }

  lemma {:induction false} NatToDecimalRoundTrip(n: nat)
    ensures DecimalValue(NatToDecimal(n)) == n
    decreases n
  {
    var t := NatToDecimal(n);
    if n >= 10 {
      NatToDecimalRoundTrip(n / 10);
      assert t[..|t| - 1] == NatToDecimal(n / 10);
    }
  }

  lemma IntToDecimalRoundTrip(x: int)
    ensures ParseInt(IntToDecimal(x)) == Some(x)
  {
    if x < 0 {
      NatToDecimalRoundTrip(-x);
      assert IntToDecimal(x)[1..] == NatToDecimal(-x);
    } else {
      NatToDecimalRoundTrip(x);
    }
  }

  lemma IndexOfAfterSeparator(a: string, c: char, rest: string)
    requires forall j :: 0 <= j < |a| ==> a[j] != c
    ensures IndexOf(a + [c] + rest, c) == |a|
  {
    var t := a + [c] + rest;
    assert t[|a|] == c;
  }

  /** The frame of ToString's text: prefix, suffix and the part between. */
  lemma KeyTextParts(a: string, b: string)
    ensures var t := "Key{r=" + a + ", s=" + b + "}";
      |t| >= 7 && t[..6] == "Key{r=" && t[|t| - 1] == '}' && t[6..|t| - 1] == a + ", s=" + b
  {
    var t := "Key{r=" + a + ", s=" + b + "}";
    assert t == "Key{r=" + (a + ", s=" + b) + "}";
  }

  /** The two fields of a key's text, split at the first comma. */
  lemma KeyBodyParts(a: string, b: string)
    requires forall j :: 0 <= j < |a| ==> a[j] != ','
    ensures var body := a + ", s=" + b;
      && IndexOf(body, ',') == |a| && |body| >= |a| + 4
      && body[..|a|] == a && body[|a|..|a| + 4] == ", s=" && body[|a| + 4..] == b
  {
    var body := a + ", s=" + b;
    assert body == a + [','] + (" s=" + b);
    IndexOfAfterSeparator(a, ',', " s=" + b);
  }

  /** toString loses nothing: the key can be read back from its text. */
  lemma ToStringRoundTrip(k: Key)
    ensures ParseKey(k.ToString()) == Some(k)
  {
    var a, b := IntToDecimal(k.r), IntToDecimal(k.s);
    assert k.ToString() == "Key{r=" + a + ", s=" + b + "}";
    assert forall j :: 0 <= j < |a| ==> a[j] != ',';
    KeyTextParts(a, b);
    KeyBodyParts(a, b);
    IntToDecimalRoundTrip(k.r);
    IntToDecimalRoundTrip(k.s);
  }

  /** Distinct keys print differently. */
  lemma ToStringInjective(k1: Key, k2: Key)
    requires k1.ToString() == k2.ToString()
    ensures k1 == k2
  {
    ToStringRoundTrip(k1);
    ToStringRoundTrip(k2);
  }
}
