/** Exactly which texts the parameter parsers of the EVM signer accept, and which error comes first. */
module EvmAccepted {
  import opened Bytes
  import opened Positional
  import opened Text
  import opened EvmHex
  import opened EvmTx

  // ----- numbers -----

  /** Hexadecimal digits, after an optional prefix and, if there are any, an optional plus sign. */
  predicate SpellsNumber(text: string, digits: string) {
    && IsHex(digits)
    && (|| text == digits || text == "0x" + digits
        || (digits != "" && (text == "+" + digits || text == "0x+" + digits)))
  }

  lemma StrippedNumber(text: string, digits: string)
    requires SpellsNumber(text, digits)
    ensures StripPrefix(text) == digits || (digits != "" && StripPrefix(text) == "+" + digits)
  {
    hide IsHex, HexDigit;
    HexHasNoBlanks(digits);
    if text == "0x" + digits {
      assert text[2..] == digits;
    } else if text == "0x+" + digits {
      assert text[2..] == "+" + digits;
    } else if text == "+" + digits {
      assert text[0] == '+';
    }
  }

  lemma NumberText(text: HexText)
    ensures var t := StripPrefix(text);
            var digits := if t != "" && t[0] == '+' then t[1..] else t;
            IsHex(digits) && (t == digits || digits != "") ==> SpellsNumber(text, digits)
  {
    hide IsHex;
    var t := StripPrefix(text);
    if "0x" <= text {
      assert text == "0x" + t;
    }
    if t != "" && t[0] == '+' {
      assert t == "+" + t[1..];
      assert "0x" + ("+" + t[1..]) == "0x+" + t[1..];
    }
  }

  /** A text is read as n exactly when it spells n, and n fits 64 bits. */
  lemma U64Accepts(text: HexText, n: u64)
    ensures HexToU64(text) == Ok(n) <==> exists digits: string :: SpellsNumber(text, digits) && HexNumber(digits) == n
  {
    hide IsHex, HexNumber, StripPrefix;
    var t := StripPrefix(text);
    var digits := if t != "" && t[0] == '+' then t[1..] else t;
    NumberText(text);
    NoNumber();
    if HexToU64(text) == Ok(n) {
      assert SpellsNumber(text, digits) && HexNumber(digits) == n;
    }
    forall d: string | SpellsNumber(text, d) && HexNumber(d) == n
      ensures HexToU64(text) == Ok(n)
    {
      SpelledIsRead(text, d);
    }
  }

  lemma NoNumber()
    ensures IsHex("") && HexNumber("") == 0
  {
    EvenDigits("");
  }

  lemma SpelledIsRead(text: HexText, d: string)
    requires SpellsNumber(text, d)
    ensures IsHex(d) && (HexNumber(d) < 0x1_0000_0000_0000_0000 ==> HexToU64(text) == Ok(HexNumber(d)))
  {
    hide HexNumber, StripPrefix, HexDigit;
    StrippedNumber(text, d);
    NoNumber();
    HexHasNoBlanks(d);
    if StripPrefix(text) != d {
      assert ("+" + d)[1..] == d;
    }
  }

  // ----- bytes -----

  /** Hexadecimal digits between blanks, after an optional prefix. */
  predicate SpellsBytes(text: string, w1: string, digits: string, w2: string) {
    && IsHex(digits) && Blank(w1) && Blank(w2)
    && (text == w1 + digits + w2 || text == "0x" + (w1 + digits + w2))
  }

  lemma NoPrefixInside(w1: string, digits: string, w2: string)
    requires IsHex(digits) && Blank(w1) && Blank(w2)
    ensures !("0x" <= w1 + digits + w2)
  {
    hide IsWhitespace, HexDigit;
    var t := w1 + digits + w2;
    if |t| >= 2 {
      assert IsWhitespace(t[1]) || HexDigit(t[1]).Some?;
      NotAnX(t[1]);
    }
  }

  lemma NotAnX(c: char)
    requires IsWhitespace(c) || HexDigit(c).Some?
    ensures c != 'x'
  {
  }

  lemma SpelledTrims(text: string, w1: string, digits: string, w2: string)
    requires SpellsBytes(text, w1, digits, w2)
    ensures TrimEnd(TrimStart(StripPrefix(text))) == digits
  {
    hide TrimStart, TrimEnd, IsWhitespace;
    var t := w1 + digits + w2;
    NoPrefixInside(w1, digits, w2);
    assert ("0x" + t)[2..] == t;
    if digits != "" {
      DigitIsNoBlank(digits[0]);
      DigitIsNoBlank(digits[|digits| - 1]);
    }
    TrimDrops(w1, digits, w2);
  }

  lemma DigitIsNoBlank(c: char)
    requires HexDigit(c).Some?
    ensures !IsWhitespace(c)
  {
  }

  lemma BytesOfDigits(text: HexText)
    ensures var t := TrimEnd(TrimStart(StripPrefix(text)));
            HexToBytes(text) == if IsHex(t) then Ok(Fixed(256, HexNumber(t), (|t| + 1) / 2)) else Err(InvalidHex)
  {
    hide HexNumber, Value, TrimStart, TrimEnd, StripPrefix, Pairs, Fixed, HexDigit;
    var t := TrimEnd(TrimStart(StripPrefix(text)));
    if IsHex(t) {
      EvenDigits(t);
      var even := if |t| % 2 != 0 then "0" + t else t;
      FixedOfValue(256, Pairs(Digits(even)));
      NothingFixed(HexNumber(t));
    } else {
      var i :| 0 <= i < |t| && HexDigit(t[i]).None?;
      assert ("0" + t)[i + 1] == t[i];
    }
  }

  lemma NothingFixed(n: nat)
    ensures Fixed(256, n, 0) == []
  {
  }

  /** A text is read as bytes exactly when it is hexadecimal between blanks; an odd number of digits is completed. */
  lemma BytesAccepts(text: HexText, bs: Bytes)
    ensures HexToBytes(text) == Ok(bs)
            <==> exists w1: string, digits: string, w2: string ::
                   SpellsBytes(text, w1, digits, w2) && bs == Fixed(256, HexNumber(digits), (|digits| + 1) / 2)
    ensures HexToBytes(text).Err? ==> HexToBytes(text) == Err(InvalidHex)
  {
    hide IsHex, HexNumber, TrimStart, TrimEnd, StripPrefix, Fixed, HexToBytes, Blank;
    var s := StripPrefix(text);
    var t := TrimEnd(TrimStart(s));
    BytesOfDigits(text);
    if IsHex(t) {
      TrimCuts(s);
      var w1, w2 :| Blank(w1) && Blank(w2) && s == w1 + t + w2;
      PrefixStripped(text);
      assert SpellsBytes(text, w1, t, w2);
    }
    forall w1: string, digits: string, w2: string | SpellsBytes(text, w1, digits, w2)
      ensures t == digits
    {
      SpelledTrims(text, w1, digits, w2);
    }
  }

  lemma PrefixStripped(text: string)
    ensures text == StripPrefix(text) || text == "0x" + StripPrefix(text)
  {
  }

  // ----- the first error -----

  function Failure<T>(r: Result<T, EvmError>): Option<EvmError> {
    match r case Ok(_) => None case Err(e) => Some(e)
  }

  /** The error of the first field, in the order of the parameters, that has one. */
  ghost predicate FirstFailure(failures: seq<Option<EvmError>>, e: EvmError) {
    exists i :: 0 <= i < |failures| && failures[i] == Some(e) && forall j | 0 <= j < i :: failures[j] == None
  }

  lemma FailsFirst2(nonce: HexText, maxPriorityFee: HexText, maxFee: HexText, gasLimit: HexText, to: HexText,
                    value: HexText, data: HexText, e: EvmError)
    ensures ParseType2(nonce, maxPriorityFee, maxFee, gasLimit, to, value, data) == Err(e)
            <==> FirstFailure([Failure(HexToU64(nonce)), Failure(HexToU256(maxPriorityFee)), Failure(HexToU256(maxFee)),
                               Failure(HexToU64(gasLimit)), Failure(AddressToBytes(to)), Failure(HexToU256(value)),
                               Failure(HexToBytes(data))], e)
  {
    hide HexToU64, HexToU256, AddressToBytes, HexToBytes;
    var fs := [Failure(HexToU64(nonce)), Failure(HexToU256(maxPriorityFee)), Failure(HexToU256(maxFee)),
               Failure(HexToU64(gasLimit)), Failure(AddressToBytes(to)), Failure(HexToU256(value)), Failure(HexToBytes(data))];
    if ParseType2(nonce, maxPriorityFee, maxFee, gasLimit, to, value, data) == Err(e) {
      var i := if fs[0].Some? then 0 else if fs[1].Some? then 1 else if fs[2].Some? then 2 else if fs[3].Some? then 3
               else if fs[4].Some? then 4 else if fs[5].Some? then 5 else 6;
      assert fs[i] == Some(e);
    }
    if FirstFailure(fs, e) {
      var i :| 0 <= i < 7 && fs[i] == Some(e) && forall j | 0 <= j < i :: fs[j] == None;
      assert fs[0] == None || i == 0;
      assert fs[1] == None || i <= 1;
      assert fs[2] == None || i <= 2;
      assert fs[3] == None || i <= 3;
      assert fs[4] == None || i <= 4;
      assert fs[5] == None || i <= 5;
    }
  }

  lemma FailsFirst0(nonce: HexText, gasPrice: HexText, gasLimit: HexText, to: HexText, value: HexText, data: HexText,
                    e: EvmError)
    ensures ParseType0(nonce, gasPrice, gasLimit, to, value, data) == Err(e)
            <==> FirstFailure([Failure(HexToU64(nonce)), Failure(HexToU256(gasPrice)), Failure(HexToU64(gasLimit)),
                               Failure(AddressToBytes(to)), Failure(HexToU256(value)), Failure(HexToBytes(data))], e)
  {
    hide HexToU64, HexToU256, AddressToBytes, HexToBytes;
    var fs := [Failure(HexToU64(nonce)), Failure(HexToU256(gasPrice)), Failure(HexToU64(gasLimit)),
               Failure(AddressToBytes(to)), Failure(HexToU256(value)), Failure(HexToBytes(data))];
    if ParseType0(nonce, gasPrice, gasLimit, to, value, data) == Err(e) {
      var i := if fs[0].Some? then 0 else if fs[1].Some? then 1 else if fs[2].Some? then 2 else if fs[3].Some? then 3
               else if fs[4].Some? then 4 else 5;
      assert fs[i] == Some(e);
    }
    if FirstFailure(fs, e) {
      var i :| 0 <= i < 6 && fs[i] == Some(e) && forall j | 0 <= j < i :: fs[j] == None;
      assert fs[0] == None || i == 0;
      assert fs[1] == None || i <= 1;
      assert fs[2] == None || i <= 2;
      assert fs[3] == None || i <= 3;
      assert fs[4] == None || i <= 4;
    }
  }
}
