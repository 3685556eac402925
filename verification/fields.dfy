/** The validated `Phone` field (main.py, class `Phone`). */
module Fields {
  import opened Base
  import opened PyStr

  /** A phone as the record stores it: the text it was constructed from. */
  datatype Phone = Phone(value: string)

  /** The setter's test `len(val) == 10 and int(val)`: ten characters that
      `int()` parses to a non-zero number. */
  predicate ValidPhone(s: string) {
    |s| == 10 && match ParseInt(s) case Some(v) => v != 0 case None => false
  }

  /** `Phone(value)`: a phone holding `value` unchanged, or `ValueError`. */
  function NewPhone(value: string): Result<Phone> {
    if ValidPhone(value) then Ok(Phone(value)) else Err(ValueError)
  }

  predicate AllDigits(s: string) {
    forall i :: 0 <= i < |s| ==> IsDigit(s[i])
  }

  /** For text made of digits only, a phone is accepted exactly when it has ten
      digits and not all of them are '0'; the stored value is the text itself,
      leading zeros included. */
  lemma DigitPhone(s: string)
    requires AllDigits(s)
    ensures NewPhone(s).Ok? <==> |s| == 10 && exists i :: 0 <= i < |s| && s[i] != '0'
    ensures NewPhone(s).Ok? ==> NewPhone(s).value.value == s
    ensures NewPhone(s).Err? ==> NewPhone(s).error == ValueError
  {
    if s != [] {
      ParseDigits(s);
      DecimalValueZero(s);
    }
  }

  /** Ten zeros are rejected: `int("0000000000")` is 0, which is false. */
  lemma AllZerosRejected()
    ensures NewPhone(seq(10, _ => '0')) == Err(ValueError)
  {
    var s: string := seq(10, _ => '0');
    assert AllDigits(s);
    DigitPhone(s);
    assert forall i :: 0 <= i < |s| ==> s[i] == '0';
  }

  /** Text with a character that `int()` cannot read anywhere (not a digit,
      sign, underscore or white space that `int()` skips) is rejected,
      whatever its length. */
  lemma NonNumericRejected(s: string, k: nat)
    requires k < |s|
    requires !IsDigit(s[k]) && s[k] != '_' && s[k] != '+' && s[k] != '-' && !IsIntSpace(s[k])
    ensures NewPhone(s) == Err(ValueError)
  {
    var t := IntStrip(s);
    IntStripKeeps(s, k);
    var signed := t != [] && (t[0] == '+' || t[0] == '-');
    var digits := if signed then t[1..] else t;
    assert s[k] in digits by {
      if signed {
        assert t == [t[0]] + digits;
      }
    }
    if IsDigitGroup(digits) {
      DigitGroupIsDecimal(digits);
    }
    assert ParseInt(s) == None;
  }

  /** Ten digits, one of them not '0', make a phone. */
  lemma TenDigits(s: string, k: nat)
    requires |s| == 10 && AllDigits(s) && k < 10 && s[k] != '0'
    ensures ValidPhone(s)
  {
    DigitPhone(s);
  }
}
