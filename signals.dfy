/** Shared vocabulary of the encoding engine: the initial line level, the
    two trace shapes, and small facts about bit strings. */
module Signals {

  /** The level the line is assumed to hold just before the first bit. */
  datatype Level = High | Low

  /** A rendered trace: a step trace with one sample per bit plus a held
      trailing sample, or a piecewise-linear trace of time/level pairs. */
  datatype Trace =
    | Steps(samples: seq<int>)
    | Transitions(times: seq<real>, levels: seq<int>)

  /** The signed level before the first bit, used to seed the polarity of
      the bipolar schemes: +1 for High, -1 for Low. */
  function PreviousLevel(lvl: Level): (p: int)
    ensures p == 1 || p == -1
    ensures p == 1 <==> lvl == High
  {
    if lvl == High then 1 else -1
  }

  /** The binary level before the first bit, used to seed NRZ-I and
      Differential Manchester: 1 for High, 0 for Low. */
  function SeedLevel(lvl: Level): (b: int)
    ensures b == 0 || b == 1
    ensures b == 1 <==> lvl == High
  {
    if lvl == High then 1 else 0
  }

  /** Appends a copy of the last sample, so that a step plot holds the final
      level through the end of the last bit interval. */
  function Hold(s: seq<int>): (r: seq<int>)
    requires |s| >= 1
    ensures |r| == |s| + 1
    ensures forall k :: 0 <= k < |s| ==> r[k] == s[k]
    ensures r[|s|] == r[|s| - 1]
  {
    s + [s[|s| - 1]]
  }

  /** Regrouping a concatenation, used when a loop moves one bit's samples
      from the pending part of a trace to the emitted part. */
  lemma AppendRegroup(done: seq<int>, group: seq<int>, rest: seq<int>)
    ensures done + (group + rest) == (done + group) + rest
  {
  }

  /** Number of occurrences of `c` in `s`. */
  function Count(s: string, c: char): (n: nat)
    ensures n <= |s|
  {
    if s == [] then 0 else (if s[0] == c then 1 else 0) + Count(s[1..], c)
  }

  /** Extending a prefix by one character adds one occurrence exactly when
      that character is `c`. */
  lemma {:induction false} CountExtend(s: string, c: char, k: nat)
    requires k < |s|
    ensures Count(s[..k + 1], c) == Count(s[..k], c) + (if s[k] == c then 1 else 0)
  {
    if k > 0 {
      CountExtend(s[1..], c, k - 1);
      assert s[..k + 1][1..] == s[1..][..k];
      assert s[..k][1..] == s[1..][..k - 1];
    } else {
      assert s[..1][1..] == [];
    }
  }
}
