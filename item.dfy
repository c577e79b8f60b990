/** An item that can be bought with the gift card: an immutable (name, price in cents) value,
    with the Java `equals`, `hashCode` and `toString` it carries. */
module Items {

  datatype Option<T> = None | Some(value: T)

  // ---------------------------------------------------------------------------------------
  // Java `int` arithmetic, needed for `hashCode`, whose arithmetic wraps around.
  // ---------------------------------------------------------------------------------------

  const IntMin: int := -0x8000_0000
  const IntModulus: int := 0x1_0000_0000

  predicate InIntRange(x: int) {
    IntMin <= x < IntMin + IntModulus
  }

  /** Two's-complement truncation of a mathematical integer to a Java `int`. */
  function WrapToInt(x: int): (r: int)
    ensures InIntRange(r)
    ensures (x - r) % IntModulus == 0
    ensures InIntRange(x) ==> r == x
  {
    var r := (x - IntMin) % IntModulus + IntMin;
    assert x - r == IntModulus * ((x - IntMin) / IntModulus);
    r
  }

  /** `String.hashCode`: h := 31 * h + c over the characters, wrapping at every step. */
  function StringHashCode(s: string): (h: int)
    ensures InIntRange(h)
  {
    if s == [] then 0 else WrapToInt(31 * StringHashCode(s[..|s| - 1]) + s[|s| - 1] as int)
  }

  // ---------------------------------------------------------------------------------------
  // Decimal text, as `Integer.toString` writes it and `Integer.parseInt` reads it.
  // ---------------------------------------------------------------------------------------

  predicate IsDigit(c: char) {
    '0' <= c <= '9'
  }

  predicate AllDigits(s: string) {
    forall i :: 0 <= i < |s| ==> IsDigit(s[i])
  }

  function DigitChar(d: nat): (c: char)
    requires d < 10
    ensures IsDigit(c) && DigitValue(c) == d
  {
    ('0' as int + d) as char
  }

  function DigitValue(c: char): nat
    requires IsDigit(c)
  {
    c as int - '0' as int
  }

  /** Decimal digits of `n`: at least one digit, and no leading zero unless `n` is zero. */
  function NatToDecimal(n: nat): (s: string)
    ensures |s| >= 1 && AllDigits(s)
    ensures s[0] == '0' ==> n == 0
    decreases n
  {
    if n < 10 then [DigitChar(n)] else NatToDecimal(n / 10) + [DigitChar(n % 10)]
  }

  /** `Integer.toString`: a minus sign before the digits of a negative value. */
  function IntToDecimal(i: int): string {
    if i < 0 then "-" + NatToDecimal(-i) else NatToDecimal(i)
  }

  /** The value of a string of decimal digits. */
  function DecimalValue(s: string): nat
    requires AllDigits(s)
  {
    if s == [] then 0 else 10 * DecimalValue(s[..|s| - 1]) + DigitValue(s[|s| - 1])
  }

  /** Reads an optionally signed, non-empty run of decimal digits. */
  function ParseDecimalInt(s: string): Option<int> {
    if |s| >= 2 && s[0] == '-' && AllDigits(s[1..]) then Some(0 - DecimalValue(s[1..]) as int)
    else if |s| >= 1 && AllDigits(s) then Some(DecimalValue(s))
    else None
  }

  lemma {:induction false} NatToDecimalRoundTrip(n: nat)
    ensures DecimalValue(NatToDecimal(n)) == n
    decreases n
  {
    if n >= 10 {
      var prefix, last := NatToDecimal(n / 10), DigitChar(n % 10);
      NatToDecimalRoundTrip(n / 10);
      assert (prefix + [last])[..|prefix|] == prefix;
      assert DecimalValue(prefix + [last]) == 10 * DecimalValue(prefix) + DigitValue(last);
    }
  }

  lemma IntToDecimalRoundTrip(i: int)
    ensures ParseDecimalInt(IntToDecimal(i)) == Some(i)
  {
    var s := IntToDecimal(i);
    if i < 0 {
      var digits := NatToDecimal(-i);
      assert s[0] == '-' && s[1..] == digits;
      NatToDecimalRoundTrip(-i);
    } else {
      assert IsDigit(s[0]);
      NatToDecimalRoundTrip(i);
    }
  }

  // ---------------------------------------------------------------------------------------
  // The item itself.
  // ---------------------------------------------------------------------------------------

  /** What `equals(Object)` may be handed: null, an Item, or an object of another class
      (a subclass of Item included, since `getClass()` differs). */
  datatype JavaObject = Null | ItemObject(item: Item) | OtherClassObject

  /** Immutable: a datatype value has no fields that can be reassigned. */
  datatype Item = Item(name: string, priceInCents: int) {

    function GetName(): string {
      name
    }

    function GetPriceInCents(): int {
      priceInCents
    }

    /** `equals`: the other object is an Item with the same price and the same name, which is
        exactly structural equality of the two values. */
    function Equals(o: JavaObject): (eq: bool)
      ensures eq <==> o == ItemObject(this)
    {
      match o
      case ItemObject(other) => priceInCents == other.priceInCents && name == other.name
      case _ => false
    }

    /** `hashCode` as `Objects.hash(name, priceInCents)`: 31 * (31 * 1 + name hash) + price,
        in wrapping `int` arithmetic. */
    function HashCode(): (h: int)
      ensures InIntRange(h)
    {
      WrapToInt(31 * WrapToInt(31 * 1 + StringHashCode(name)) + priceInCents)
    }

    /** `toString`: the name, a comma and a space, then the price in decimal. */
    function ToString(): (s: string)
      ensures |s| >= |name| + 2 && s[..|name|] == name && s[|name|..|name| + 2] == ", "
    {
      name + ", " + IntToDecimal(priceInCents)
    }
  }

  lemma GettersReturnConstructorArguments(name: string, priceInCents: int)
    ensures Item(name, priceInCents).GetName() == name
    ensures Item(name, priceInCents).GetPriceInCents() == priceInCents
  {
  }

  lemma EqualsIsFieldwise(a: Item, b: Item)
    ensures a.Equals(ItemObject(b)) <==> a.priceInCents == b.priceInCents && a.name == b.name
  {
  }

  lemma EqualsIsAnEquivalence(a: Item, b: Item, c: Item)
    ensures a.Equals(ItemObject(a))
    ensures a.Equals(ItemObject(b)) ==> b.Equals(ItemObject(a))
    ensures a.Equals(ItemObject(b)) && b.Equals(ItemObject(c)) ==> a.Equals(ItemObject(c))
  {
  }

  lemma EqualsRejectsNullAndOtherClasses(a: Item)
    ensures !a.Equals(Null)
    ensures !a.Equals(OtherClassObject)
  {
  }

  lemma EqualItemsHaveEqualHashCodes(a: Item, o: JavaObject)
    requires a.Equals(o)
    ensures o.ItemObject? && o.item.HashCode() == a.HashCode()
  {
  }

  /** The text of `toString` starts with the name, then ", ", and the rest reads back as the price. */
  lemma ToStringLayout(it: Item)
    ensures var s := it.ToString();
            |s| >= |it.name| + 2 && s[..|it.name|] == it.name && s[|it.name|..|it.name| + 2] == ", "
            && ParseDecimalInt(s[|it.name| + 2..]) == Some(it.priceInCents)
  ensures var t := it.ToString()[|it.name| + 2..];
          |t| >= 1 && (t[0] == '-' <==> it.priceInCents < 0)
          && var digits := if it.priceInCents < 0 then t[1..] else t;
             |digits| >= 1 && AllDigits(digits) && (digits[0] == '0' ==> it.priceInCents == 0)
  {
    var s := it.ToString();
    assert s[|it.name| + 2..] == IntToDecimal(it.priceInCents);
    IntToDecimalRoundTrip(it.priceInCents);
  }
}
