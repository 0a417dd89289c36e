/**
 * The post-meta store that the field reader works on, as WordPress hands it
 * out through `get_post_meta( $id, $key, true )`: one value per key, a plain
 * string for scalars and an unserialized list for the layout tags of a
 * flexible-content field.
 */
module MetaStore {

  /** A single meta value: a stored string, or a stored (serialized) list of strings. */
  datatype MetaValue = Text(s: string) | List(items: seq<string>)

  /** The meta rows of one post, keyed by meta key. */
  type Store = map<string, MetaValue>

  /** `get_post_meta( $id, $key, true )`: the stored value, or "" when the key is absent. */
  function Lookup(store: Store, key: string): MetaValue {
    if key in store then store[key] else Text("")
  }

  /** PHP's `empty()` on what the store can hand out: "", "0" and the empty list. */
  predicate Empty(v: MetaValue) {
    v == Text("") || v == Text("0") || v == List([])
  }

  // ---------------------------------------------------------------------------
  // Decimal numbers: the row index written into nested keys ("slides_3_title")
  // and the row count a repeater stores at its own key ("3").

  predicate IsDigit(c: char) {
    '0' <= c <= '9'
  }

  function DigitChar(d: nat): (c: char)
    requires d < 10
    ensures IsDigit(c) && c as int - '0' as int == d
  {
    ('0' as int + d) as char
  }

  function DigitValue(c: char): (d: nat)
    requires IsDigit(c)
    ensures d < 10
  {
    c as int - '0' as int
  }

  /** PHP's rendering of a non-negative integer inside a string ("_{$i}_"). */
  function NatToString(n: nat): (s: string)
    ensures |s| >= 1
    ensures forall i :: 0 <= i < |s| ==> IsDigit(s[i])
    decreases n
  {
    if n < 10 then [DigitChar(n)] else NatToString(n / 10) + [DigitChar(n % 10)]
  }

  /** The value of a string made of decimal digits only. */
  function DigitsValue(s: string): nat
    requires forall i :: 0 <= i < |s| ==> IsDigit(s[i])
    decreases |s|
  {
    if s == [] then 0
    else DigitsValue(s[..|s| - 1]) * 10 + DigitValue(s[|s| - 1])
  }

  /** The longest prefix of `s` made of decimal digits. */
  function LeadingDigits(s: string): (d: string)
    ensures |d| <= |s| && d == s[..|d|]
    ensures forall i :: 0 <= i < |d| ==> IsDigit(d[i])
    ensures |d| < |s| ==> !IsDigit(s[|d|])
    decreases |s|
  {
    if s != [] && IsDigit(s[0]) then [s[0]] + LeadingDigits(s[1..]) else ""
  }

  /**
   * The number a repeater's `for ( $i = 0; $i < $field_value; $i++ )` loop runs
   * to: PHP compares the integer with the stored string numerically, reading
   * its leading digits (no digits reads as 0).
   */
  function RowCount(v: MetaValue): nat {
    match v
    case Text(s) => DigitsValue(LeadingDigits(s))
    case List(_) => 0
  }

  lemma {:induction false} LeadingDigitsOfDigits(s: string)
    requires forall i :: 0 <= i < |s| ==> IsDigit(s[i])
    ensures LeadingDigits(s) == s
    decreases |s|
  {
    if s != [] {
      LeadingDigitsOfDigits(s[1..]);
    }
  }

  lemma {:induction false} DigitsValueOfNatToString(n: nat)
    ensures DigitsValue(NatToString(n)) == n
    decreases n
  {
    var s := NatToString(n);
    if n >= 10 {
      DigitsValueOfNatToString(n / 10);
      assert s[..|s| - 1] == NatToString(n / 10);
    }
  }

  /** A count written as decimal text reads back as the same count. */
  lemma {:induction false} RowCountRoundTrip(n: nat)
    ensures RowCount(Text(NatToString(n))) == n
  {
    LeadingDigitsOfDigits(NatToString(n));
    DigitsValueOfNatToString(n);
  }

  /** Distinct row indices render as distinct decimal strings. */
  lemma {:induction false} NatToStringInjective(m: nat, n: nat)
    requires m != n
    ensures NatToString(m) != NatToString(n)
  {
    DigitsValueOfNatToString(m);
    DigitsValueOfNatToString(n);
  }
}
