/**
 * The `DD/MM/YYYY` typing mask of the two date entries on the registration
 * tab (`_formatar_data`): on every key release the entry's text is rebuilt
 * from its first eight digits, and the cursor is put back after the same
 * number of digits it followed before.
 */
module DateMask {
  import opened Text

  function Take(s: string, n: nat): (r: string)
    ensures |r| == if |s| <= n then |s| else n
    ensures r == s[..|r|]
  {
    if |s| <= n then s else s[..n]
  }

  /** The masked text for a run of at most eight digits: a `/` after the
      second digit when a third follows and after the fourth when a fifth follows. */
  function Layout(d: string): (r: string)
    requires AllDigits(d) && |d| <= 8
    ensures |r| == |d| + (if |d| > 2 then 1 else 0) + (if |d| > 4 then 1 else 0)
    ensures forall i :: 0 <= i < |r| ==> (r[i] == '/' <==> i == 2 || i == 5)
    ensures forall i :: 0 <= i < |r| && r[i] != '/' ==> IsDigit(r[i])
  {
    (if |d| > 0 then Take(d, 2) else "")
    + (if |d| > 2 then "/" + d[2..if |d| < 4 then |d| else 4] else "")
    + (if |d| > 4 then "/" + d[4..] else "")
  }

  /** The digits of the laid-out text are exactly the digits laid out. */
  lemma LayoutDigits(d: string)
    requires AllDigits(d) && |d| <= 8
    ensures Digits(Layout(d)) == d
  {
    if |d| <= 2 {
      assert Layout(d) == d;
      DigitsOfDigits(d);
    } else if |d| <= 4 {
      assert Layout(d) == d[..2] + ("/" + d[2..]);
      DigitsAroundSlash(d[..2], d[2..]);
      assert d[..2] + d[2..] == d;
    } else {
      var a, b, c := d[..2], d[2..4], d[4..];
      assert Layout(d) == (a + ("/" + b)) + ("/" + c);
      DigitsAroundSlash(a, b);
      DigitsAroundSlash(a + b, c);
      assert a + ("/" + b) + ("/" + c) == Layout(d);
      DigitsAppend(a + ("/" + b), "/" + c);
      DigitsAfterSlash(c);
      assert a + b + c == d;
    }
  }

  lemma DigitsAroundSlash(a: string, b: string)
    requires AllDigits(a) && AllDigits(b)
    ensures Digits(a + ("/" + b)) == a + b
  {
    DigitsAppend(a, "/" + b);
    DigitsAfterSlash(b);
    DigitsOfDigits(a);
  }

  lemma DigitsAfterSlash(b: string)
    requires AllDigits(b)
    ensures Digits("/" + b) == b
  {
    DigitsAppend("/", b);
    assert "/"[..0] == "";
    DigitsOfDigits(b);
  }

  /** The text the mask puts in the entry. */
  function MaskedText(text: string): (r: string)
    ensures |r| <= 10
    ensures forall i :: 0 <= i < |r| ==> (r[i] == '/' <==> i == 2 || i == 5)
    ensures forall i :: 0 <= i < |r| && r[i] != '/' ==> IsDigit(r[i])
  {
    Layout(Take(Digits(text), 8))
  }

  /** The masked text keeps the first eight digits typed, in order, drops every
      other character, and has a `/` exactly at positions 2 and 5 when a digit follows it. */
  lemma MaskedTextShape(text: string)
    ensures Digits(MaskedText(text)) == Take(Digits(text), 8)
    ensures var n := |Take(Digits(text), 8)|;
      |MaskedText(text)| == n + (if n > 2 then 1 else 0) + (if n > 4 then 1 else 0)
  {
    LayoutDigits(Take(Digits(text), 8));
  }

  /** Masking an already masked text changes nothing, so the entry is left alone. */
  lemma MaskIdempotent(text: string)
    ensures MaskedText(MaskedText(text)) == MaskedText(text)
  {
    var d := Take(Digits(text), 8);
    LayoutDigits(d);
    assert Take(Digits(MaskedText(text)), 8) == d;
  }

  /**
   * The cursor placement loop: walks `s` from the start and stops after the
   * `k`-th digit, or at the end when `s` has fewer digits.
   */
  method CursorAfterDigits(s: string, k: nat) returns (pos: nat)
    ensures pos <= |s|
    ensures |Digits(s[..pos])| == if k <= |Digits(s)| then k else |Digits(s)|
    ensures forall p :: 0 <= p < pos ==> |Digits(s[..p])| < k
  {
    pos := 0;
    var digitsCounted := 0;
    while pos < |s|
      invariant 0 <= pos <= |s|
      invariant digitsCounted == |Digits(s[..pos])| <= k
      invariant forall p :: 0 <= p < pos ==> |Digits(s[..p])| < k
    {
      if digitsCounted == k {
        break;
      }
      DigitsOfPrefixStep(s, pos);
      if IsDigit(s[pos]) {
        digitsCounted := digitsCounted + 1;
      }
      pos := pos + 1;
    }
    assert s[..|s|] == s;
    DigitsOfPrefixGrow(s, pos, |s|);
  }

  /**
   * One key release in a date entry: `text` is the entry's content and `pos`
   * the cursor. Returns the new content and the new cursor. When the masked
   * text equals the old one the entry is not touched.
   */
  method FormatDateEntry(text: string, pos: nat) returns (newText: string, newPos: nat)
    ensures newText == MaskedText(text)
    ensures newText == text ==> newPos == pos
    ensures newText != text ==> newPos <= |newText|
    ensures newText != text ==>
      var k := |Digits(text[..if pos <= |text| then pos else |text|])|;
      var total := |Digits(newText)|;
      && |Digits(newText[..newPos])| == (if k <= total then k else total)
      && (forall p :: 0 <= p < newPos ==> |Digits(newText[..p])| < k)
    ensures newText != text && |Digits(text[..if pos <= |text| then pos else |text|])| == 0 ==> newPos == 0
  {
    var before := text[..if pos <= |text| then pos else |text|];
    var digitsBeforeCursor := |Digits(before)|;
    newText := MaskedText(text);
    if newText == text {
      newPos := pos;
      return;
    }
    newPos := CursorAfterDigits(newText, digitsBeforeCursor);
  }
}
