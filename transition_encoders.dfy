/** The two transition-trace schemes: Manchester and Differential
    Manchester. Each bit contributes four time/level samples, two before and
    two after the bit's centre; times are exact halves, kept as reals. */
module TransitionEncoders {
  import opened Signals

  // ------------------------------------------------------------ time axis

  /** The time coordinates of `n` bits: bit `i` contributes i, i + 0.5,
      i + 0.5, i + 1. Both transition schemes use this axis. */
  function TimeAxis(n: nat): (t: seq<real>)
    ensures |t| == 4 * n
  {
    if n == 0 then []
    else
      var b := (n - 1) as real;
      TimeAxis(n - 1) + [b, b + 0.5, b + 0.5, b + 1.0]
  }

  /** The four times of bit `i` are i, i + 0.5, i + 0.5 and i + 1. */
  lemma {:induction false} TimeAxisAt(n: nat, i: nat)
    requires i < n
    ensures var t := TimeAxis(n);
      t[4 * i] == i as real && t[4 * i + 1] == i as real + 0.5 &&
      t[4 * i + 2] == i as real + 0.5 && t[4 * i + 3] == i as real + 1.0
  {
    if i < n - 1 {
      TimeAxisAt(n - 1, i);
    }
  }

  /** The time axis never goes backwards and stays within [0, n]. */
  lemma {:induction false} TimeAxisMonotone(n: nat)
    ensures forall k, l :: 0 <= k <= l < 4 * n ==>
      0.0 <= TimeAxis(n)[k] <= TimeAxis(n)[l] <= n as real
  {
    if n > 0 {
      TimeAxisMonotone(n - 1);
      var t, p := TimeAxis(n), TimeAxis(n - 1);
      var b := (n - 1) as real;
      var last := [b, b + 0.5, b + 0.5, b + 1.0];
      assert t == p + last;
      forall k, l | 0 <= k <= l < |t| ensures 0.0 <= t[k] <= t[l] <= n as real {
        if l < |p| {
          assert t[k] == p[k] && t[l] == p[l];
        } else if k < |p| {
          assert t[k] == p[k] && t[l] == last[l - |p|];
        } else {
          assert t[k] == last[k - |p|] && t[l] == last[l - |p|];
        }
      }
    }
  }

  // ----------------------------------------------------------- Manchester

  /** The four Manchester levels of one bit: low-to-high at the centre for
      a '1', high-to-low for any other bit. */
  function ManchesterGroup(bit: char): (g: seq<int>)
    ensures |g| == 4 && g[0] == g[1] && g[2] == g[3] && g[1] != g[2]
    ensures g[1] == 0 <==> bit == '1'
    ensures forall k :: 0 <= k < 4 ==> g[k] == 0 || g[k] == 1
  {
    if bit == '1' then [0, 0, 1, 1] else [1, 1, 0, 0]
  }

  /** Manchester levels of a bit string, four per bit. */
  function ManchesterLevels(data: string): (s: seq<int>)
    ensures |s| == 4 * |data|
  {
    if data == [] then [] else ManchesterGroup(data[0]) + ManchesterLevels(data[1..])
  }

  /** Manchester trace; it does not depend on the initial level. */
  function Manchester(data: string): (tr: Trace)
    ensures tr.Transitions? && |tr.times| == |tr.levels| == 4 * |data|
  {
    Transitions(TimeAxis(|data|), ManchesterLevels(data))
  }

  /** The levels of bit `i` are exactly that bit's group: they depend on
      nothing but that bit. */
  lemma {:induction false} ManchesterLevelsAt(data: string, i: nat)
    requires i < |data|
    ensures ManchesterLevels(data)[4 * i..4 * i + 4] == ManchesterGroup(data[i])
  {
    if i > 0 {
      ManchesterLevelsAt(data[1..], i - 1);
    }
  }

  /** Encoding a concatenation is concatenating the encodings, so a bit's
      levels are unaffected by its neighbours. */
  lemma {:induction false} ManchesterLevelsAppend(a: string, b: string)
    ensures ManchesterLevels(a + b) == ManchesterLevels(a) + ManchesterLevels(b)
  {
    if a == [] {
      assert a + b == b;
    } else {
      assert (a + b)[0] == a[0] && (a + b)[1..] == a[1..] + b;
      ManchesterLevelsAppend(a[1..], b);
      calc {
        ManchesterLevels(a + b);
        ManchesterGroup(a[0]) + ManchesterLevels(a[1..] + b);
        ManchesterGroup(a[0]) + (ManchesterLevels(a[1..]) + ManchesterLevels(b));
        (ManchesterGroup(a[0]) + ManchesterLevels(a[1..])) + ManchesterLevels(b);
      }
    }
  }

  /** The loop of `manchester` in digital_signal_encoder.py. */
  method EncodeManchester(data: string) returns (t: seq<real>, signal: seq<int>)
    ensures Transitions(t, signal) == Manchester(data)
  {
    signal := [];
    t := [];
    for i := 0 to |data|
      invariant t == TimeAxis(i)
      invariant signal + ManchesterLevels(data[i..]) == ManchesterLevels(data)
    {
      ghost var done := signal;
      assert data[i..][1..] == data[i + 1..];
      if data[i] == '1' {
        signal := signal + [0, 0, 1, 1];
      } else {
        signal := signal + [1, 1, 0, 0];
      }
      assert signal == done + ManchesterGroup(data[i]);
      AppendRegroup(done, ManchesterGroup(data[i]), ManchesterLevels(data[i + 1..]));
      t := t + [i as real, i as real + 0.5, i as real + 0.5, i as real + 1.0];
    }
    assert data[|data|..] == [];
    assert signal == ManchesterLevels(data);
  }

  // ---------------------------------------------- Differential Manchester

  /** Inverts a binary level: 1 from 0, 0 from anything else. */
  function Toggle(level: int): (r: int)
    ensures level == 0 || level == 1 ==> r == 1 - level
  {
    if level == 0 then 1 else 0
  }

  /** The four Differential Manchester levels of one bit when the level
      carried in is `last`: a '0' inverts at the start and again at the
      centre; any other bit inverts only at the centre. */
  function DiffGroup(bit: char, last: int): (g: seq<int>)
    ensures |g| == 4
  {
    if bit == '0' then
      var a := Toggle(last);
      var b := Toggle(a);
      [a, a, b, b]
    else
      var b := Toggle(last);
      [last, last, b, b]
  }

  /** From a binary level, a bit's group is binary, flat in each half,
      changes at the centre, and starts away from `last` exactly when the
      bit is '0'. */
  lemma DiffGroupLaws(bit: char, last: int)
    requires last == 0 || last == 1
    ensures var g := DiffGroup(bit, last);
      (forall k :: 0 <= k < 4 ==> g[k] == 0 || g[k] == 1) &&
      g[0] == g[1] && g[2] == g[3] && g[1] != g[2] && (g[0] != last <==> bit == '0')
  {
  }

  /** Differential Manchester levels of a bit string, the last level of
      each bit carried into the next. */
  function DiffRun(data: string, last: int): (s: seq<int>)
    ensures |s| == 4 * |data|
  {
    if data == [] then []
    else
      var g := DiffGroup(data[0], last);
      g + DiffRun(data[1..], g[3])
  }

  /** Differential Manchester trace seeded with 1 for High and 0 for Low. */
  function DifferentialManchester(data: string, lvl: Level): (tr: Trace)
    ensures tr.Transitions? && |tr.times| == |tr.levels| == 4 * |data|
    ensures tr.times == Manchester(data).times
  {
    Transitions(TimeAxis(|data|), DiffRun(data, SeedLevel(lvl)))
  }

  /** Where the levels of bit `i` sit in a run: bit 0's are its own group,
      and a later bit's are those of bit i - 1 in the run of the remaining
      bits, which starts from the group's last level. */
  lemma DiffRunShift(data: string, last: int, i: nat)
    requires i < |data|
    ensures var g, s := DiffGroup(data[0], last), DiffRun(data, last);
      var rest := DiffRun(data[1..], g[3]);
      if i == 0 then
        s[0] == g[0] && s[1] == g[1] && s[2] == g[2] && s[3] == g[3]
      else
        var j := 4 * (i - 1);
        s[4 * i] == rest[j] && s[4 * i + 1] == rest[j + 1] &&
        s[4 * i + 2] == rest[j + 2] && s[4 * i + 3] == rest[j + 3] &&
        s[4 * i - 1] == if i == 1 then g[3] else rest[j - 1]
  {
    var g := DiffGroup(data[0], last);
    assert DiffRun(data, last) == g + DiffRun(data[1..], g[3]);
  }

  /** Every bit of a run started from a binary level has binary levels, a
      flat first half, a flat second half and a transition at its centre;
      its first level differs from the level carried in (`last` for bit 0,
      the previous bit's last level otherwise) exactly when the bit is '0'. */
  lemma {:induction false} DiffRunLaws(data: string, last: int, i: nat)
    requires last == 0 || last == 1
    requires i < |data|
    ensures var s := DiffRun(data, last);
      (forall k :: 4 * i <= k < 4 * i + 4 ==> s[k] == 0 || s[k] == 1) &&
      s[4 * i] == s[4 * i + 1] && s[4 * i + 2] == s[4 * i + 3] && s[4 * i + 1] != s[4 * i + 2] &&
      ((s[4 * i] != (if i == 0 then last else s[4 * i - 1])) <==> data[i] == '0')
  {
    var g := DiffGroup(data[0], last);
    DiffGroupLaws(data[0], last);
    DiffRunShift(data, last, i);
    if i > 0 {
      DiffRunLaws(data[1..], g[3], i - 1);
    }
  }

  /** The laws on the full trace, seeded from the initial level. */
  lemma DifferentialManchesterLaws(data: string, lvl: Level, i: nat)
    requires i < |data|
    ensures var s := DifferentialManchester(data, lvl).levels;
      (forall k :: 4 * i <= k < 4 * i + 4 ==> s[k] == 0 || s[k] == 1) &&
      s[4 * i] == s[4 * i + 1] && s[4 * i + 2] == s[4 * i + 3] && s[4 * i + 1] != s[4 * i + 2] &&
      ((s[4 * i] != (if i == 0 then SeedLevel(lvl) else s[4 * i - 1])) <==> data[i] == '0')
  {
    DiffRunLaws(data, SeedLevel(lvl), i);
  }

  /** One step of a Differential Manchester run at bit `i`: moving bit i's
      group from the pending run to the emitted prefix keeps the whole. */
  lemma DiffRunStep(data: string, i: nat, last: int, done: seq<int>)
    requires i < |data|
    ensures var g := DiffGroup(data[i], last);
      done + DiffRun(data[i..], last) == (done + g) + DiffRun(data[i + 1..], g[3])
  {
    assert data[i..][1..] == data[i + 1..];
    var g := DiffGroup(data[i], last);
    AppendRegroup(done, g, DiffRun(data[i + 1..], g[3]));
  }

  /** Emitting a bit's two halves one after the other emits its group. */
  lemma HalvesRegroup(done: seq<int>, a: int, b: int)
    ensures (done + [a, a]) + [b, b] == done + [a, a, b, b]
  {
  }

  /** The loop of `differential_manchester` in digital_signal_encoder.py. */
  method EncodeDifferentialManchester(data: string, lvl: Level) returns (t: seq<real>, signal: seq<int>)
    ensures Transitions(t, signal) == DifferentialManchester(data, lvl)
  {
    signal := [];
    t := [];
    var lastLevel := SeedLevel(lvl);
    for i := 0 to |data|
      invariant t == TimeAxis(i)
      invariant signal + DiffRun(data[i..], lastLevel) == DiffRun(data, SeedLevel(lvl))
    {
      ghost var done, carried := signal, lastLevel;
      DiffRunStep(data, i, lastLevel, signal);
      ghost var first;
      if data[i] == '0' {
        lastLevel := if lastLevel == 0 then 1 else 0;
        first := lastLevel;
        signal := signal + [lastLevel, lastLevel];
        lastLevel := if lastLevel == 0 then 1 else 0;
        signal := signal + [lastLevel, lastLevel];
      } else {
        first := lastLevel;
        signal := signal + [lastLevel, lastLevel];
        lastLevel := if lastLevel == 0 then 1 else 0;
        signal := signal + [lastLevel, lastLevel];
      }
      assert DiffGroup(data[i], carried) == [first, first, lastLevel, lastLevel];
      HalvesRegroup(done, first, lastLevel);
      t := t + [i as real, i as real + 0.5, i as real + 0.5, i as real + 1.0];
    }
    assert data[|data|..] == [];
    assert signal == DiffRun(data, SeedLevel(lvl));
  }
}
