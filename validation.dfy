/** The input check that guards the encoders: the raw entry is trimmed of
    surrounding whitespace, then rejected when empty or when any character
    is not '0' or '1'. */
module Validation {

  /** The two ways an input is rejected as a whole. */
  datatype InputError = EmptyInput | InvalidSymbol

  datatype Result<T> = Ok(value: T) | Err(error: InputError)

  /** The whitespace removed by trimming (the ASCII whitespace characters). */
  predicate IsWhitespace(c: char)
  {
    c == ' ' || c == '\t' || c == '\n' || c == '\r' || c == '\U{000B}' || c == '\U{000C}'
  }

  /** True when every character is '0' or '1', checked one character at a
      time from the front. */
  predicate IsBinary(s: string)
    ensures IsBinary(s) <==> forall i :: 0 <= i < |s| ==> s[i] == '0' || s[i] == '1'
  {
    s == [] || ((s[0] == '0' || s[0] == '1') && IsBinary(s[1..]))
  }

  /** Drops leading whitespace: the result is a suffix of `s`, everything
      dropped is whitespace, and the result does not start with whitespace. */
  function TrimStart(s: string): (r: string)
    ensures |r| <= |s| && r == s[|s| - |r|..]
    ensures forall i :: 0 <= i < |s| - |r| ==> IsWhitespace(s[i])
    ensures r != [] ==> !IsWhitespace(r[0])
  {
    if s != [] && IsWhitespace(s[0]) then TrimStart(s[1..]) else s
  }

  /** Drops trailing whitespace: the result is a prefix of `s`, everything
      dropped is whitespace, and the result does not end with whitespace. */
  function TrimEnd(s: string): (r: string)
    ensures |r| <= |s| && r == s[..|r|]
    ensures forall i :: |r| <= i < |s| ==> IsWhitespace(s[i])
    ensures r != [] ==> !IsWhitespace(r[|r| - 1])
  {
    if s != [] && IsWhitespace(s[|s| - 1]) then TrimEnd(s[..|s| - 1]) else s
  }

  /** Drops whitespace at both ends: what is left neither starts nor ends
      with whitespace, and is never longer than `s`. */
  function Trim(s: string): (r: string)
    ensures |r| <= |s|
    ensures r != [] ==> !IsWhitespace(r[0]) && !IsWhitespace(r[|r| - 1])
  {
    TrimEnd(TrimStart(s))
  }

  /** Trimming keeps every character that is not whitespace, in place: the
      result is the slice of `s` between two offsets, and every character
      outside that slice is whitespace. */
  lemma TrimIsSlice(s: string) returns (lo: nat, hi: nat)
    ensures lo <= hi <= |s| && Trim(s) == s[lo..hi]
    ensures forall i :: 0 <= i < |s| && !(lo <= i < hi) ==> IsWhitespace(s[i])
  {
    var t := TrimStart(s);
    lo := |s| - |t|;
    hi := lo + |Trim(s)|;
    assert Trim(s) == t[..|Trim(s)|];
  }

  /** The input check of `generate_all_signals` in
      digital_signal_encoder.py: empty after trimming, or a character other
      than '0'/'1', rejects the whole input; otherwise the trimmed string is
      passed on unchanged. */
  function Validate(raw: string): (r: Result<string>)
    ensures r == Err(EmptyInput) <==> Trim(raw) == []
    ensures r == Err(InvalidSymbol) <==> Trim(raw) != [] && !IsBinary(Trim(raw))
    ensures r.Ok? <==> |Trim(raw)| >= 1 && IsBinary(Trim(raw))
    ensures r.Ok? ==> r.value == Trim(raw)
  {
    var data := Trim(raw);
    if |data| == 0 then Err(EmptyInput)
    else if !(forall i :: 0 <= i < |data| ==> data[i] in "01") then Err(InvalidSymbol)
    else Ok(data)
  }

  /** A non-empty binary string passes the check unchanged. */
  lemma ValidateAcceptsBits(data: string)
    requires |data| >= 1 && IsBinary(data)
    ensures Validate(data) == Ok(data)
  {
    assert Trim(data) == data by {
      assert !IsWhitespace(data[0]) && !IsWhitespace(data[|data| - 1]);
      assert TrimStart(data) == data;
    }
  }

  /** A character that is neither whitespace nor a bit, anywhere in the
      raw input, rejects the input as a whole. */
  lemma ValidateRejectsForeign(raw: string, k: nat)
    requires k < |raw| && !IsWhitespace(raw[k]) && raw[k] != '0' && raw[k] != '1'
    ensures Validate(raw) == Err(InvalidSymbol)
  {
    var lo, hi := TrimIsSlice(raw);
    assert Trim(raw)[k - lo] == raw[k];
  }

  /** A raw input made only of whitespace is rejected as empty. */
  lemma ValidateRejectsBlank(raw: string)
    requires forall i :: 0 <= i < |raw| ==> IsWhitespace(raw[i])
    ensures Validate(raw) == Err(EmptyInput)
  {
    var lo, hi := TrimIsSlice(raw);
  }
}
