/** The four level-trace schemes: NRZ-L, NRZ-I, Bipolar AMI and
    Pseudoternary. Each yields one sample per bit followed by a held copy of
    the last sample. A bit is a character; as in the Python program
    digital_signal_encoder.py, a scheme
    tests only for the character it reacts to ('1' or '0') and treats every
    other character like the opposite bit. */
module LevelEncoders {
  import opened Signals

  // ---------------------------------------------------------------- NRZ-L

  /** NRZ-L: level 1 for a '1' bit and 0 otherwise, independent of history
      and of the initial level. */
  function NrzL(data: string): (r: seq<int>)
    requires |data| >= 1
    ensures |r| == |data| + 1
    ensures forall i :: 0 <= i < |data| ==> (r[i] == 1 <==> data[i] == '1')
    ensures forall i :: 0 <= i < |data| ==> (r[i] == 0 <==> data[i] != '1')
    ensures r[|data|] == r[|data| - 1]
  {
    Hold(seq(|data|, i requires 0 <= i < |data| => if data[i] == '1' then 1 else 0))
  }

  // ---------------------------------------------------------------- NRZ-I

  /** NRZ-I samples, without the held trailing sample, when the running
      level before `data` is `cur`: a '1' inverts the level, any other bit
      keeps it, and the level after the bit is emitted. */
  function NrziRun(data: string, cur: int): (r: seq<int>)
    ensures |r| == |data|
    ensures cur == 0 || cur == 1 ==> forall i :: 0 <= i < |r| ==> r[i] == 0 || r[i] == 1
  {
    if data == [] then []
    else
      var next := if data[0] == '1' then (if cur == 1 then 0 else 1) else cur;
      [next] + NrziRun(data[1..], next)
  }

  /** NRZ-I trace seeded with 1 for High and 0 for Low. */
  function NrzI(data: string, lvl: Level): (r: seq<int>)
    requires |data| >= 1
    ensures |r| == |data| + 1
    ensures forall i :: 0 <= i < |r| ==> r[i] == 0 || r[i] == 1
    ensures r[|data|] == r[|data| - 1]
  {
    Hold(NrziRun(data, SeedLevel(lvl)))
  }

  /** Sample `i` of an NRZ-I run differs from the level before it exactly
      when bit `i` is a '1'; the level before bit 0 is the seed. */
  lemma {:induction false} NrziRunTransition(data: string, cur: int, i: nat)
    requires cur == 0 || cur == 1
    requires i < |data|
    ensures var r := NrziRun(data, cur);
      (r[i] != (if i == 0 then cur else r[i - 1])) <==> data[i] == '1'
  {
    if i > 0 {
      var next := if data[0] == '1' then (if cur == 1 then 0 else 1) else cur;
      NrziRunTransition(data[1..], next, i - 1);
    }
  }

  /** Closed form of an NRZ-I run: sample `i` is the seed flipped once per
      '1' among bits 0..i, so it is the seed XOR the parity of those '1's. */
  lemma {:induction false} NrziRunParity(data: string, cur: int, i: nat)
    requires cur == 0 || cur == 1
    requires i < |data|
    ensures NrziRun(data, cur)[i] ==
      if Count(data[..i + 1], '1') % 2 == 0 then cur else 1 - cur
  {
    var next := if data[0] == '1' then (if cur == 1 then 0 else 1) else cur;
    assert data[..i + 1][1..] == data[1..][..i];
    if i > 0 {
      NrziRunParity(data[1..], next, i - 1);
    }
  }

  /** The per-bit laws of the NRZ-I trace: sample `i` differs from the level
      carried in (the seed for i = 0) iff bit `i` is '1', and equals the seed
      XOR the parity of the '1's in bits 0..i. */
  lemma NrzILaws(data: string, lvl: Level, i: nat)
    requires i < |data|
    ensures var r := NrzI(data, lvl);
      (r[i] != (if i == 0 then SeedLevel(lvl) else r[i - 1])) <==> data[i] == '1'
    ensures var seed := SeedLevel(lvl);
      NrzI(data, lvl)[i] == if Count(data[..i + 1], '1') % 2 == 0 then seed else 1 - seed
  {
    NrziRunTransition(data, SeedLevel(lvl), i);
    NrziRunParity(data, SeedLevel(lvl), i);
  }

  /** One step of an NRZ-I run at bit `i`. */
  lemma NrziRunUnfold(data: string, i: nat, cur: int)
    requires i < |data|
    ensures var next := if data[i] == '1' then (if cur == 1 then 0 else 1) else cur;
      NrziRun(data[i..], cur) == [next] + NrziRun(data[i + 1..], next)
  {
    assert data[i..][1..] == data[i + 1..];
  }

  /** Reading bit `i` keeps the running level equal to the seed XOR the
      parity of the '1's read so far. */
  lemma NrziParityStep(data: string, i: nat, seed: int, cur: int)
    requires i < |data|
    requires cur == if Count(data[..i], '1') % 2 == 0 then seed else 1 - seed
    ensures var next := if data[i] == '1' then (if cur == 1 then 0 else 1) else cur;
      seed == 0 || seed == 1 ==>
        next == if Count(data[..i + 1], '1') % 2 == 0 then seed else 1 - seed
  {
    CountExtend(data, '1', i);
  }

  /** The loop of `nrz_i` in digital_signal_encoder.py. The running level
      is at all times the seed flipped once per '1' read so far. */
  method EncodeNrzI(data: string, lvl: Level) returns (signal: seq<int>)
    requires |data| >= 1
    ensures signal == NrzI(data, lvl)
  {
    var current := SeedLevel(lvl);
    signal := [];
    for i := 0 to |data|
      invariant |signal| == i
      invariant signal + NrziRun(data[i..], current) == NrziRun(data, SeedLevel(lvl))
      invariant current == if Count(data[..i], '1') % 2 == 0 then SeedLevel(lvl) else 1 - SeedLevel(lvl)
    {
      ghost var done := signal;
      NrziRunUnfold(data, i, current);
      NrziParityStep(data, i, SeedLevel(lvl), current);
      if data[i] == '1' {
        current := if current == 1 then 0 else 1;
      }
      signal := signal + [current];
      AppendRegroup(done, [current], NrziRun(data[i + 1..], current));
    }
    assert data[|data|..] == [];
    ghost var run := signal;
    assert run == NrziRun(data, SeedLevel(lvl));
    signal := signal + [signal[|signal| - 1]];
    assert signal == Hold(run);
  }

  // ---------------------------------------------------------- Bipolar AMI

  /** Bipolar AMI samples, without the held trailing sample, when the next
      mark will carry polarity `mark`: a '1' emits `mark` and negates it for
      the following mark, any other bit emits 0. */
  function AmiRun(data: string, mark: int): (r: seq<int>)
    ensures |r| == |data|
  {
    if data == [] then []
    else if data[0] == '1' then [mark] + AmiRun(data[1..], -mark)
    else [0] + AmiRun(data[1..], mark)
  }

  /** Bipolar AMI trace: the first mark is the opposite of the previous
      level (+1 for High, -1 for Low). */
  function BipolarAmi(data: string, lvl: Level): (r: seq<int>)
    requires |data| >= 1
    ensures |r| == |data| + 1
    ensures r[|data|] == r[|data| - 1]
  {
    Hold(AmiRun(data, -PreviousLevel(lvl)))
  }

  /** Every Bipolar AMI sample lies in {-1, 0, 1} and is 0 exactly on the bits
      that are not '1'. */
  lemma BipolarAmiAlphabet(data: string, lvl: Level)
    requires |data| >= 1
    ensures var r := BipolarAmi(data, lvl);
      forall i :: 0 <= i < |data| ==> (r[i] == 0 <==> data[i] != '1') && -1 <= r[i] <= 1
  {
    var r, run := BipolarAmi(data, lvl), AmiRun(data, -PreviousLevel(lvl));
    AmiRunAlphabet(data, -PreviousLevel(lvl));
    assert forall i :: 0 <= i < |data| ==> r[i] == run[i];
  }

  /** With a polarity of +1 or -1, an AMI run emits 0 exactly on the bits
      that are not '1', and only values in {-1, 0, 1}. */
  lemma {:induction false} AmiRunAlphabet(data: string, mark: int)
    requires mark == 1 || mark == -1
    ensures var r := AmiRun(data, mark);
      forall i :: 0 <= i < |data| ==> (r[i] == 0 <==> data[i] != '1') && -1 <= r[i] <= 1
  {
    if data != [] {
      AmiRunAlphabet(data[1..], if data[0] == '1' then -mark else mark);
    }
  }

  /** The first mark of an AMI run carries the starting polarity. */
  lemma {:induction false} AmiRunFirstMark(data: string, mark: int, k: nat)
    requires k < |data| && data[k] == '1'
    requires forall j :: 0 <= j < k ==> data[j] != '1'
    ensures AmiRun(data, mark)[k] == mark
  {
    if k > 0 {
      AmiRunFirstMark(data[1..], mark, k - 1);
    }
  }

  /** Two marks with no mark between them have opposite polarity, however
      many other bits separate them. */
  lemma {:induction false} AmiRunAlternation(data: string, mark: int, i: nat, j: nat)
    requires i < j < |data|
    requires data[i] == '1' && data[j] == '1'
    requires forall k :: i < k < j ==> data[k] != '1'
    ensures AmiRun(data, mark)[j] == -AmiRun(data, mark)[i]
  {
    if i > 0 {
      var next := if data[0] == '1' then -mark else mark;
      AmiRunAlternation(data[1..], next, i - 1, j - 1);
    } else {
      AmiRunFirstMark(data[1..], -mark, j - 1);
    }
  }

  /** On the full trace, the first mark is the opposite of the previous
      level. */
  lemma BipolarAmiFirstMark(data: string, lvl: Level, k: nat)
    requires k < |data| && data[k] == '1'
    requires forall j :: 0 <= j < k ==> data[j] != '1'
    ensures BipolarAmi(data, lvl)[k] == -PreviousLevel(lvl)
  {
    var mark := -PreviousLevel(lvl);
    assert BipolarAmi(data, lvl)[k] == AmiRun(data, mark)[k];
    AmiRunFirstMark(data, mark, k);
  }

  /** On the full trace, successive marks are non-zero and strictly
      alternate in sign. */
  lemma BipolarAmiAlternation(data: string, lvl: Level, i: nat, j: nat)
    requires i < j < |data|
    requires data[i] == '1' && data[j] == '1'
    requires forall k :: i < k < j ==> data[k] != '1'
    ensures BipolarAmi(data, lvl)[j] == -BipolarAmi(data, lvl)[i] != 0
  {
    var mark := -PreviousLevel(lvl);
    var r, run := BipolarAmi(data, lvl), AmiRun(data, mark);
    assert r[i] == run[i] && r[j] == run[j];
    BipolarAmiAlphabet(data, lvl);
    AmiRunAlternation(data, mark, i, j);
  }

  /** One step of a Bipolar AMI run at bit `i`. */
  lemma AmiRunUnfold(data: string, i: nat, mark: int)
    requires i < |data|
    ensures AmiRun(data[i..], mark) ==
      if data[i] == '1' then [mark] + AmiRun(data[i + 1..], -mark) else [0] + AmiRun(data[i + 1..], mark)
  {
    assert data[i..][1..] == data[i + 1..];
  }

  /** The loop of `bipolar_ami` in digital_signal_encoder.py. */
  method EncodeBipolarAmi(data: string, lvl: Level) returns (signal: seq<int>)
    requires |data| >= 1
    ensures signal == BipolarAmi(data, lvl)
  {
    var lastOne := -PreviousLevel(lvl);
    signal := [];
    for i := 0 to |data|
      invariant |signal| == i
      invariant signal + AmiRun(data[i..], lastOne) == AmiRun(data, -PreviousLevel(lvl))
    {
      ghost var done := signal;
      AmiRunUnfold(data, i, lastOne);
      if data[i] == '1' {
        signal := signal + [lastOne];
        AppendRegroup(done, [lastOne], AmiRun(data[i + 1..], -lastOne));
        lastOne := -lastOne;
      } else {
        signal := signal + [0];
        AppendRegroup(done, [0], AmiRun(data[i + 1..], lastOne));
      }
    }
    assert data[|data|..] == [];
    ghost var run := signal;
    assert run == AmiRun(data, -PreviousLevel(lvl));
    signal := signal + [signal[|signal| - 1]];
    assert signal == Hold(run);
  }

  // -------------------------------------------------------- Pseudoternary

  /** Pseudoternary samples, without the held trailing sample: a '0' emits
      `mark` and negates it for the following '0', any other bit emits 0. */
  function PseudoRun(data: string, mark: int): (r: seq<int>)
    ensures |r| == |data|
  {
    if data == [] then []
    else if data[0] == '0' then [mark] + PseudoRun(data[1..], -mark)
    else [0] + PseudoRun(data[1..], mark)
  }

  /** Pseudoternary trace, seeded like Bipolar AMI. */
  function Pseudoternary(data: string, lvl: Level): (r: seq<int>)
    requires |data| >= 1
    ensures |r| == |data| + 1
    ensures r[|data|] == r[|data| - 1]
  {
    Hold(PseudoRun(data, -PreviousLevel(lvl)))
  }

  /** Every Pseudoternary sample lies in {-1, 0, 1} and is 0 exactly on the bits
      that are not '0'. */
  lemma PseudoternaryAlphabet(data: string, lvl: Level)
    requires |data| >= 1
    ensures var r := Pseudoternary(data, lvl);
      forall i :: 0 <= i < |data| ==> (r[i] == 0 <==> data[i] != '0') && -1 <= r[i] <= 1
  {
    var r, run := Pseudoternary(data, lvl), PseudoRun(data, -PreviousLevel(lvl));
    PseudoRunAlphabet(data, -PreviousLevel(lvl));
    assert forall i :: 0 <= i < |data| ==> r[i] == run[i];
  }

  /** With a polarity of +1 or -1, a Pseudoternary run emits 0 exactly on
      the bits that are not '0', and only values in {-1, 0, 1}. */
  lemma {:induction false} PseudoRunAlphabet(data: string, mark: int)
    requires mark == 1 || mark == -1
    ensures var r := PseudoRun(data, mark);
      forall i :: 0 <= i < |data| ==> (r[i] == 0 <==> data[i] != '0') && -1 <= r[i] <= 1
  {
    if data != [] {
      PseudoRunAlphabet(data[1..], if data[0] == '0' then -mark else mark);
    }
  }

  /** The bit string with '0' and '1' swapped; any character other than '0'
      becomes '0'. */
  function Complement(data: string): (r: string)
    ensures |r| == |data|
    ensures forall i :: 0 <= i < |data| ==> (r[i] == '1' <==> data[i] == '0')
    ensures forall i :: 0 <= i < |data| ==> r[i] == '0' || r[i] == '1'
  {
    seq(|data|, i requires 0 <= i < |data| => if data[i] == '0' then '1' else '0')
  }

  /** On a binary string, complementing twice gives the string back. */
  lemma ComplementInvolution(data: string)
    requires forall i :: 0 <= i < |data| ==> data[i] == '0' || data[i] == '1'
    ensures Complement(Complement(data)) == data
  {
  }

  /** A Pseudoternary run is an AMI run over the complemented bits. */
  lemma {:induction false} PseudoRunMirrorsAmi(data: string, mark: int)
    ensures PseudoRun(data, mark) == AmiRun(Complement(data), mark)
  {
    if data != [] {
      assert Complement(data)[1..] == Complement(data[1..]);
      PseudoRunMirrorsAmi(data[1..], if data[0] == '0' then -mark else mark);
    }
  }

  /** Pseudoternary is Bipolar AMI on the complemented bits, with the same
      initial level. */
  lemma PseudoternaryMirrorsAmi(data: string, lvl: Level)
    requires |data| >= 1
    ensures Pseudoternary(data, lvl) == BipolarAmi(Complement(data), lvl)
  {
    PseudoRunMirrorsAmi(data, -PreviousLevel(lvl));
  }

  /** The mirror read the other way: on binary bits, Bipolar AMI is
      Pseudoternary on the complemented bits. */
  lemma BipolarAmiMirrorsPseudoternary(data: string, lvl: Level)
    requires |data| >= 1
    requires forall i :: 0 <= i < |data| ==> data[i] == '0' || data[i] == '1'
    ensures BipolarAmi(data, lvl) == Pseudoternary(Complement(data), lvl)
  {
    PseudoternaryMirrorsAmi(Complement(data), lvl);
    ComplementInvolution(data);
  }

  /** Through the mirror: the first '0' carries the opposite of the
      previous level. */
  lemma PseudoternaryFirstMark(data: string, lvl: Level, k: nat)
    requires k < |data| && data[k] == '0'
    requires forall j :: 0 <= j < k ==> data[j] != '0'
    ensures Pseudoternary(data, lvl)[k] == -PreviousLevel(lvl)
  {
    PseudoternaryMirrorsAmi(data, lvl);
    BipolarAmiFirstMark(Complement(data), lvl, k);
  }

  /** Through the mirror: successive '0' bits are non-zero and strictly
      alternate in sign. */
  lemma PseudoternaryAlternation(data: string, lvl: Level, i: nat, j: nat)
    requires i < j < |data|
    requires data[i] == '0' && data[j] == '0'
    requires forall k :: i < k < j ==> data[k] != '0'
    ensures Pseudoternary(data, lvl)[j] == -Pseudoternary(data, lvl)[i] != 0
  {
    PseudoternaryMirrorsAmi(data, lvl);
    BipolarAmiAlternation(Complement(data), lvl, i, j);
  }

  /** One step of a Pseudoternary run at bit `i`. */
  lemma PseudoRunUnfold(data: string, i: nat, mark: int)
    requires i < |data|
    ensures PseudoRun(data[i..], mark) ==
      if data[i] == '0' then [mark] + PseudoRun(data[i + 1..], -mark) else [0] + PseudoRun(data[i + 1..], mark)
  {
    assert data[i..][1..] == data[i + 1..];
  }

  /** The loop of `pseudoternary` in digital_signal_encoder.py. */
  method EncodePseudoternary(data: string, lvl: Level) returns (signal: seq<int>)
    requires |data| >= 1
    ensures signal == Pseudoternary(data, lvl)
  {
    var lastZero := -PreviousLevel(lvl);
    signal := [];
    for i := 0 to |data|
      invariant |signal| == i
      invariant signal + PseudoRun(data[i..], lastZero) == PseudoRun(data, -PreviousLevel(lvl))
    {
      ghost var done := signal;
      PseudoRunUnfold(data, i, lastZero);
      if data[i] == '0' {
        signal := signal + [lastZero];
        AppendRegroup(done, [lastZero], PseudoRun(data[i + 1..], -lastZero));
        lastZero := -lastZero;
      } else {
        signal := signal + [0];
        AppendRegroup(done, [0], PseudoRun(data[i + 1..], lastZero));
      }
    }
    assert data[|data|..] == [];
    ghost var run := signal;
    assert run == PseudoRun(data, -PreviousLevel(lvl));
    signal := signal + [signal[|signal| - 1]];
    assert signal == Hold(run);
  }

  /** Worked examples: NRZ-L of "1" and "0", NRZ-I of "101" from High, and
      Bipolar AMI of "11011" from High. */
  lemma LevelExamples()
    ensures NrzL("1") == [1, 1] && NrzL("0") == [0, 0]
    ensures NrzI("101", High) == [0, 0, 1, 1]
    ensures BipolarAmi("11011", High) == [-1, 1, 0, -1, 1, 1]
  {
    assert "101"[1..] == "01" && "01"[1..] == "1" && "1"[1..] == [];
    assert "11011"[1..] == "1011" && "1011"[1..] == "011";
    assert "011"[1..] == "11" && "11"[1..] == "1";
  }
}
