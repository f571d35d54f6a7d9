/**
 * The part of ActiveSupport's `to_json` the token relies on: a flat object
 * whose members keep insertion order, as a Ruby Hash does, with string,
 * integer and null values. How a string is quoted and escaped is not
 * modelled here; it is the `quote` function passed to the renderer.
 */
module Json {
  import opened Wrappers
  import opened Bytes

  datatype Value = JString(str: string) | JInt(num: int) | JNull

  type Member = (string, Value)

  /** An object: its members in insertion order. */
  type Object = seq<Member>

  /** The UTF-8 bytes of a JSON string literal, quotes included, for a text. */
  type Quote = string -> seq<Byte>

  /** The keys, in order. */
  function Keys(o: Object): (ks: seq<string>)
    ensures |ks| == |o|
    decreases |o|
  {
    if o == [] then [] else [o[0].0] + Keys(o[1..])
  }

  /** Hash#[]: the value stored under `k`, if any. */
  function Get(o: Object, k: string): (r: Option<Value>)
    ensures r.Some? <==> k in Keys(o)
    decreases |o|
  {
    if o == [] then None
    else if o[0].0 == k then Some(o[0].1)
    else Get(o[1..], k)
  }

  /**
   * Hash#[]=: store `v` under `k`. An existing key keeps its place; a new key
   * goes after all the others.
   */
  function Put(o: Object, k: string, v: Value): (r: Object)
    ensures Get(r, k) == Some(v)
    ensures forall k' :: k' != k ==> Get(r, k') == Get(o, k')
    ensures k in Keys(o) ==> Keys(r) == Keys(o)
    ensures k !in Keys(o) ==> r == o + [(k, v)]
    decreases |o|
  {
    if o == [] then [(k, v)]
    else if o[0].0 == k then [(k, v)] + o[1..]
    else
      var rest := Put(o[1..], k, v);
      assert o == [o[0]] + o[1..];
      [o[0]] + rest
  }

  const OpenBrace: Byte := 0x7B
  const CloseBrace: Byte := 0x7D
  const Comma: Byte := 0x2C
  const Colon: Byte := 0x3A
  const Minus: Byte := 0x2D
  const Zero: Byte := 0x30

  predicate IsDigit(b: Byte) {
    Zero <= b < Zero + 10
  }

  /** The decimal digits of `n`, most significant first, without leading zeros. */
  function Digits(n: nat): (r: seq<Byte>)
    ensures |r| >= 1
    ensures forall i :: 0 <= i < |r| ==> IsDigit(r[i])
    ensures r[0] == Zero <==> n == 0
    decreases n
  {
    if n < 10 then [Zero + n] else Digits(n / 10) + [Zero + n % 10]
  }

  /** Integer#to_json: an optional minus sign, then the digits. */
  function RenderInt(i: int): seq<Byte> {
    if i < 0 then [Minus] + Digits(-i) else Digits(i)
  }

  predicate AllDigits(bs: seq<Byte>) {
    forall i :: 0 <= i < |bs| ==> IsDigit(bs[i])
  }

  /** A digit string as the JSON grammar writes one: no leading zero unless it is "0". */
  predicate IsCanonicalDigits(bs: seq<Byte>) {
    |bs| >= 1 && AllDigits(bs) && (bs[0] == Zero ==> |bs| == 1)
  }

  /** The number a digit string denotes. */
  function DigitsValue(bs: seq<Byte>): nat
    requires AllDigits(bs)
    decreases |bs|
  {
    if bs == [] then 0 else DigitsValue(bs[..|bs| - 1]) * 10 + (bs[|bs| - 1] - Zero)
  }

  /** How a consumer reads a JSON integer back; None for anything RenderInt never writes. */
  function ParseInt(bs: seq<Byte>): Option<int> {
    if |bs| >= 1 && bs[0] == Minus then
      if IsCanonicalDigits(bs[1..]) && DigitsValue(bs[1..]) != 0 then
        var n: int := DigitsValue(bs[1..]);
        Some(-n)
      else None
    else if IsCanonicalDigits(bs) then Some(DigitsValue(bs))
    else None
  }

  lemma {:induction false} DigitsValueOfDigits(n: nat)
    ensures DigitsValue(Digits(n)) == n
    decreases n
  {
    if n >= 10 {
      var init := Digits(n / 10);
      DigitsValueOfDigits(n / 10);
      assert (init + [Zero + n % 10])[..|init|] == init;
    }
  }

  lemma {:induction false} LeadingDigitPositive(bs: seq<Byte>)
    requires |bs| >= 1 && AllDigits(bs) && bs[0] != Zero
    ensures DigitsValue(bs) >= 1
    decreases |bs|
  {
    if |bs| > 1 {
      LeadingDigitPositive(bs[..|bs| - 1]);
    }
  }

  lemma {:induction false} DigitsOfDigitsValue(bs: seq<Byte>)
    requires IsCanonicalDigits(bs)
    ensures Digits(DigitsValue(bs)) == bs
    decreases |bs|
  {
    if |bs| > 1 {
      var init := bs[..|bs| - 1];
      LeadingDigitPositive(init);
      DigitsOfDigitsValue(init);
      assert init + [bs[|bs| - 1]] == bs;
    }
  }

  /** A rendered integer reads back as itself. */
  lemma ParseRenderInt(i: int)
    ensures ParseInt(RenderInt(i)) == Some(i)
  {
    var n := if i < 0 then -i else i;
    DigitsValueOfDigits(n);
    if i < 0 {
      assert RenderInt(i)[1..] == Digits(n);
    }
  }

  /** Every integer text the parser accepts is the rendering of what it parses to. */
  lemma RenderParseInt(bs: seq<Byte>, i: int)
    requires ParseInt(bs) == Some(i)
    ensures RenderInt(i) == bs
  {
    if |bs| >= 1 && bs[0] == Minus {
      DigitsOfDigitsValue(bs[1..]);
      assert bs == [Minus] + bs[1..];
    } else {
      DigitsOfDigitsValue(bs);
    }
  }

  function RenderValue(v: Value, quote: Quote): seq<Byte> {
    match v
    case JString(s) => quote(s)
    case JInt(n) => RenderInt(n)
    case JNull => Ascii("null")
  }

  /** `"key":value` */
  function RenderMember(m: Member, quote: Quote): seq<Byte> {
    quote(m.0) + [Colon] + RenderValue(m.1, quote)
  }

  /** The members in order, separated by commas. */
  function RenderMembers(ms: Object, quote: Quote): seq<Byte>
    decreases |ms|
  {
    if |ms| == 0 then []
    else if |ms| == 1 then RenderMember(ms[0], quote)
    else RenderMember(ms[0], quote) + [Comma] + RenderMembers(ms[1..], quote)
  }

  /** Hash#to_json for a flat object: `{`, the members, `}`, with no white space. */
  function Render(o: Object, quote: Quote): (r: seq<Byte>)
    ensures |r| >= 2 && r[0] == OpenBrace && r[|r| - 1] == CloseBrace
  {
    [OpenBrace] + RenderMembers(o, quote) + [CloseBrace]
  }

  lemma {:induction false} RenderMembersAppend(ms: Object, m: Member, quote: Quote)
    ensures RenderMembers(ms + [m], quote)
         == if ms == [] then RenderMember(m, quote)
            else RenderMembers(ms, quote) + [Comma] + RenderMember(m, quote)
    decreases |ms|
  {
    if |ms| == 1 {
      assert (ms + [m])[1..] == [m];
    } else if |ms| > 1 {
      assert (ms + [m])[1..] == ms[1..] + [m];
      RenderMembersAppend(ms[1..], m, quote);
    }
  }

  /**
   * Rendering an object with one more member at the end is the old rendering
   * with its closing brace replaced by a comma (when there was a member
   * before), the new member and a closing brace: the earlier members'
   * text is unchanged.
   */
  lemma RenderAppend(o: Object, m: Member, quote: Quote)
    ensures Render(o + [m], quote)
         == Render(o, quote)[..|Render(o, quote)| - 1]
            + (if o == [] then [] else [Comma]) + RenderMember(m, quote) + [CloseBrace]
  {
    var members := RenderMembers(o, quote);
    var sep: seq<Byte> := if o == [] then [] else [Comma];
    var added := RenderMember(m, quote);
    RenderMembersAppend(o, m, quote);
    assert RenderMembers(o + [m], quote) == members + sep + added;
    var open := [OpenBrace] + members;
    assert Render(o, quote) == open + [CloseBrace];
    assert Render(o, quote)[..|Render(o, quote)| - 1] == open;
    Reassociate(open, members, sep, added);
  }

  lemma Reassociate(open: seq<Byte>, members: seq<Byte>, sep: seq<Byte>, added: seq<Byte>)
    requires open == [OpenBrace] + members
    ensures [OpenBrace] + (members + sep + added) + [CloseBrace] == open + sep + added + [CloseBrace]
  {
  }
}
