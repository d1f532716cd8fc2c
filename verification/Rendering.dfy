/** The annotations of failed deliveries as text, after src/method/mod.rs:106-115. */
module Rendering {
  import opened Prelude
  import opened IcmpErrors
  import opened Methods

  function Digit(n: nat): char
    requires n < 10
  {
    ('0' as int + n) as char
  }

  function Decimal(n: nat): (text: string)
    ensures text != []
  {
    if n < 10 then [Digit(n)] else Decimal(n / 10) + [Digit(n % 10)]
  }

  function FromDecimal(text: string): int {
    if text == [] then 0 else FromDecimal(text[..|text| - 1]) * 10 + (text[|text| - 1] as int - '0' as int)
  }

  lemma {:induction false} DecimalInverse(n: nat)
    ensures FromDecimal(Decimal(n)) == n
    ensures '-' !in Decimal(n)
  {
    if n >= 10 {
      DecimalInverse(n / 10);
      assert Decimal(n)[..|Decimal(n)| - 1] == Decimal(n / 10);
    } else {
      assert Decimal(n)[..0] == [];
    }
  }

  /** A numeral as one writes it: digits only and no leading zero. */
  predicate IsNumeral(text: string) {
    text != [] && (forall c <- text :: '0' <= c <= '9') && (text[0] == '0' ==> |text| == 1)
  }

  /** A number is written as the one numeral that denotes it. */
  lemma {:induction false} DecimalExact(text: string, n: nat)
    ensures text == Decimal(n) <==> IsNumeral(text) && FromDecimal(text) == n
    decreases n
  {
    DecimalInverse(n);
    DecimalIsNumeral(n);
    if IsNumeral(text) && FromDecimal(text) == n {
      NumeralIsDecimal(text);
    }
  }

  lemma {:induction false} DecimalIsNumeral(n: nat)
    ensures IsNumeral(Decimal(n)) && (Decimal(n)[0] == '0' ==> n == 0)
  {
    if n >= 10 {
      DecimalIsNumeral(n / 10);
    }
  }

  lemma DigitOf(c: char) returns (d: nat)
    requires '0' <= c <= '9'
    ensures d < 10 && d == c as int - '0' as int && Digit(d) == c
  {
    d := c as int - '0' as int;
  }

  lemma NumeralParts(text: string) returns (rest: string, last: char)
    requires IsNumeral(text)
    ensures text == rest + [last] && rest == text[..|text| - 1] && last == text[|text| - 1] && '0' <= last <= '9'
    ensures rest != [] ==> IsNumeral(rest) && rest != "0"
  {
    rest, last := text[..|text| - 1], text[|text| - 1];
    assert last in text;
    if rest != [] {
      assert rest[0] == text[0];
      forall c <- rest ensures '0' <= c <= '9' {
        assert c in text;
      }
    }
  }

  lemma {:induction false} NumeralIsDecimal(text: string)
    requires IsNumeral(text)
    ensures FromDecimal(text) >= 0 && text == Decimal(FromDecimal(text)) && (FromDecimal(text) == 0 ==> text == "0")
  {
    var rest, last := NumeralParts(text);
    hide IsNumeral;
    var d := DigitOf(last);
    hide Digit;
    assert FromDecimal(text) == 10 * FromDecimal(rest) + d;
    if rest == [] {
      assert text == [last];
      assert Digit(0) == '0' by { var zero := DigitOf('0'); }
    } else {
      NumeralIsDecimal(rest);
      DecimalStep(FromDecimal(rest), d);
      hide FromDecimal;
      hide Decimal;
    }
  }

  lemma DecimalStep(r: nat, d: nat)
    requires r > 0 && d < 10
    ensures Decimal(10 * r + d) == Decimal(r) + [Digit(d)]
  {
    assert (10 * r + d) / 10 == r && (10 * r + d) % 10 == d;
  }

  /** What `fmt` writes. */
  function Render(u: Unreachable): string {
    match u
    case Marker(text) => text
    case Code(code) => "!<" + Decimal(code) + ">"
    case Other(icmpType, code) => "!<" + Decimal(icmpType) + "-" + Decimal(code) + ">"
    case TooBig(mtu) => "!F-" + Decimal(mtu)
  }

  const MARKERS: set<string> := {"!N", "!H", "!X", "!P", "!S", "!V", "!C", "!?"}

  /** A reason the trace can attach to a probe. */
  predicate Producible(u: Unreachable) {
    u.Marker? ==> u.text in MARKERS
  }

  /** Every classification, and the fallback for a missing error, is producible. */
  lemma ClassifiedReasonsAreProducible(replies: Replies, reply: Reply)
    requires replies.Classify(reply).Undelivered?
    ensures Producible(replies.Classify(reply).reason)
  {
  }

  /** The position of the first dash, or the length. */
  function FirstDash(text: string): (i: nat)
    ensures i <= |text|
  {
    if text == [] || text[0] == '-' then 0 else 1 + FirstDash(text[1..])
  }

  lemma {:induction false} DashAfter(left: string, right: string)
    requires '-' !in left
    ensures FirstDash(left + "-" + right) == |left|
    ensures FirstDash(left) == |left|
  {
    if left != [] {
      DashAfter(left[1..], right);
      assert (left + "-" + right)[1..] == left[1..] + "-" + right;
    }
  }

  function Byte(n: int): Option<u8> {
    if 0 <= n < 0x100 then Some(n) else None
  }

  /** Reads an annotation back. */
  function ParseReason(text: string): Option<Unreachable> {
    if "!F-" <= text then
      var mtu := FromDecimal(text[3..]);
      if 0 <= mtu < 0x1_0000_0000 then Some(TooBig(mtu)) else None
    else if "!<" <= text && |text| >= 3 then ParseBody(text[2..|text| - 1])
    else Some(Marker(text))
  }

  /** What stands between the brackets: a code, or a type and a code. */
  function ParseBody(body: string): Option<Unreachable> {
    var dash := FirstDash(body);
    if dash == |body| then
      var code := Byte(FromDecimal(body));
      if code.None? then None else Some(Code(code.value))
    else
      var icmpType, code := Byte(FromDecimal(body[..dash])), Byte(FromDecimal(body[dash + 1..]));
      if icmpType.None? || code.None? then None else Some(Other(icmpType.value, code.value))
  }

  lemma Bracketed(body: string)
    ensures ParseReason("!<" + body + ">") == ParseBody(body)
  {
    var text := "!<" + body + ">";
    assert text[1] == '<';
    assert text[2..|text| - 1] == body;
    hide ParseBody;
  }

  lemma SplitAtDash(left: string, right: string)
    requires '-' !in left
    ensures var body := left + "-" + right;
            FirstDash(body) == |left| < |body| && body[..|left|] == left && body[|left| + 1..] == right
  {
    DashAfter(left, right);
  }

  lemma RenderInverseCode(code: u8)
    ensures ParseReason(Render(Code(code))) == Some(Code(code))
  {
    DecimalInverse(code);
    DashAfter(Decimal(code), "");
    Bracketed(Decimal(code));
    hide ParseReason;
    hide Decimal;
    hide FromDecimal;
    hide FirstDash;
  }

  lemma ParsePair(left: string, right: string, icmpType: u8, code: u8)
    requires '-' !in left && FromDecimal(left) == icmpType && FromDecimal(right) == code
    ensures ParseBody(left + "-" + right) == Some(Other(icmpType, code))
  {
    SplitAtDash(left, right);
    hide FromDecimal;
    hide FirstDash;
  }

  lemma RenderInverseOther(icmpType: u8, code: u8)
    ensures ParseReason(Render(Other(icmpType, code))) == Some(Other(icmpType, code))
  {
    hide Decimal;
    hide FromDecimal;
    hide ParseReason;
    hide ParseBody;
    var left, right := Decimal(icmpType), Decimal(code);
    DecimalInverse(icmpType);
    DecimalInverse(code);
    ParsePair(left, right, icmpType, code);
    Bracketed(left + "-" + right);
    assert "!<" + left + "-" + right + ">" == "!<" + (left + "-" + right) + ">";
  }

  lemma RenderInverseTooBig(mtu: u32)
    ensures ParseReason(Render(TooBig(mtu))) == Some(TooBig(mtu))
  {
    var text := Render(TooBig(mtu));
    DecimalInverse(mtu);
    hide Decimal;
    hide FromDecimal;
    assert text[..3] == "!F-";
    assert text[3..] == Decimal(mtu);
  }

  /** Rendering loses nothing: every producible reason can be read back. */
  lemma RenderInverse(u: Unreachable)
    requires Producible(u)
    ensures ParseReason(Render(u)) == Some(u)
  {
    match u
    case Marker(text) => assert |text| == 2;
    case Code(code) => RenderInverseCode(code);
    case Other(icmpType, code) => RenderInverseOther(icmpType, code);
    case TooBig(mtu) => RenderInverseTooBig(mtu);
  }

  /** Two producible reasons look the same only if they are the same. */
  lemma RenderInjective(a: Unreachable, b: Unreachable)
    requires Producible(a) && Producible(b) && Render(a) == Render(b)
    ensures a == b
  {
    RenderInverse(a);
    RenderInverse(b);
  }
}
