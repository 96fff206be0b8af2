/**
 * The inline image tag that the host's chat message builder produces for an
 * icon slot: `<img=N>` with N written in decimal, as Java's `Integer.toString`
 * writes it. The plugin relies only on two facts about it: different slots
 * give different tags, and a tag is never mistaken for a word of the message.
 */
module ChatMarkup {
  import opened JavaText

  function DigitChar(d: nat): (c: char)
    requires d < 10
    ensures '0' <= c <= '9'
  {
    ('0' as int + d) as char
  }

  /** Decimal digits of `n`, most significant first, without leading zeros. */
  function NatToDecimal(n: nat): string
  {
    if n < 10 then [DigitChar(n)] else NatToDecimal(n / 10) + [DigitChar(n % 10)]
  }

  /** The decimal form is a non-empty run of digits, longer than one digit exactly from 10 on. */
  lemma {:induction false} NatToDecimalShape(n: nat)
    ensures var s := NatToDecimal(n);
      |s| >= 1 && (forall i :: 0 <= i < |s| ==> '0' <= s[i] <= '9') && (n >= 10 <==> |s| >= 2)
  {
    if n >= 10 {
      NatToDecimalShape(n / 10);
    }
  }

  /** `Integer.toString`: a minus sign in front of the digits of a negative number. */
  function IntToDecimal(i: int): string
  {
    if i < 0 then "-" + NatToDecimal(-i) else NatToDecimal(i)
  }

  function ImgTag(id: int): string
  {
    "<img=" + IntToDecimal(id) + ">"
  }

  /** A tag holds no space, so it stays one word, and it starts with a character that is not alphanumeric. */
  lemma ImgTagShape(id: int)
    ensures ' ' !in ImgTag(id)
    ensures |ImgTag(id)| >= 1 && ImgTag(id)[0] == '<' && !IsAlphaNumChar(ImgTag(id)[0])
  {
    var d := IntToDecimal(id);
    NatToDecimalShape(if id < 0 then -id else id);
    assert forall i :: 0 <= i < |d| ==> d[i] == '-' || '0' <= d[i] <= '9';
  }

  lemma {:induction false} NatToDecimalInjective(a: nat, b: nat)
    requires NatToDecimal(a) == NatToDecimal(b)
    ensures a == b
    decreases a
  {
    NatToDecimalShape(a);
    NatToDecimalShape(b);
    if a >= 10 && b >= 10 {
      var sa, sb := NatToDecimal(a), NatToDecimal(b);
      assert sa[..|sa| - 1] == NatToDecimal(a / 10);
      assert sb[..|sb| - 1] == NatToDecimal(b / 10);
      NatToDecimalInjective(a / 10, b / 10);
      assert DigitChar(a % 10) == sa[|sa| - 1] == DigitChar(b % 10);
    }
  }

  lemma IntToDecimalInjective(a: int, b: int)
    ensures IntToDecimal(a) == IntToDecimal(b) ==> a == b
  {
    var sa, sb := IntToDecimal(a), IntToDecimal(b);
    NatToDecimalShape(if a < 0 then -a else a);
    NatToDecimalShape(if b < 0 then -b else b);
    if a < 0 && b < 0 {
      if sa == sb {
        assert sa[1..] == NatToDecimal(-a) && sb[1..] == NatToDecimal(-b);
        NatToDecimalInjective(-a, -b);
      }
    } else if a >= 0 && b >= 0 {
      if sa == sb {
        NatToDecimalInjective(a, b);
      }
    } else {
      assert sa[0] != sb[0];
    }
  }

  /** Distinct icon slots are referenced by distinct tags. */
  lemma ImgTagInjective(a: int, b: int)
    ensures ImgTag(a) == ImgTag(b) <==> a == b
  {
    if ImgTag(a) == ImgTag(b) {
      NatToDecimalShape(if a < 0 then -a else a);
      NatToDecimalShape(if b < 0 then -b else b);
      var ta, tb := ImgTag(a), ImgTag(b);
      assert ta[5..|ta| - 1] == IntToDecimal(a);
      assert tb[5..|tb| - 1] == IntToDecimal(b);
      IntToDecimalInjective(a, b);
    }
  }
}
