/** The request path of the encoder: check the raw entry once, then run all
    six schemes over the same checked bits and the same initial level. */
module Encoder {
  import opened Signals
  import opened Validation
  import opened LevelEncoders
  import opened TransitionEncoders

  /** One encoded scheme, as handed to the rendering layer: the scheme's
      name, its display title and its trace. */
  datatype Plot = Plot(name: string, title: string, trace: Trace)

  /** The six schemes in display order, each applied to `data`. */
  function AllSignals(data: string, lvl: Level): (plots: seq<Plot>)
    requires |data| >= 1
    ensures |plots| == 6
    ensures forall k :: 0 <= k < 4 ==> plots[k].trace.Steps? && |plots[k].trace.samples| == |data| + 1
    ensures forall k :: 4 <= k < 6 ==>
      plots[k].trace.Transitions? && |plots[k].trace.levels| == 4 * |data|
  {
    [ Plot("NRZ-L", "NRZ-L (Non-Return to Zero Level)", Steps(NrzL(data))),
      Plot("NRZ-I", "NRZ-I (Non-Return to Zero Inverted)", Steps(NrzI(data, lvl))),
      Plot("Bipolar AMI", "Bipolar AMI (Alternate Mark Inversion)", Steps(BipolarAmi(data, lvl))),
      Plot("Pseudoternary", "Pseudoternary", Steps(Pseudoternary(data, lvl))),
      Plot("Manchester", "Manchester", Manchester(data)),
      Plot("Differential Manchester", "Differential Manchester", DifferentialManchester(data, lvl)) ]
  }

  /** Checks the raw entry and, only when it passes, runs every encoder on
      the trimmed bits. A rejected entry yields its error and no trace. */
  method GenerateAllSignals(raw: string, lvl: Level) returns (r: Result<seq<Plot>>)
    ensures r.Err? <==> Validate(raw).Err?
    ensures r.Err? ==> r.error == Validate(raw).error
    ensures r.Err? ==> (r.error == EmptyInput <==> Trim(raw) == [])
    ensures r.Ok? ==> |Trim(raw)| >= 1 && IsBinary(Trim(raw)) && r.value == AllSignals(Trim(raw), lvl)
  {
    var checked := Validate(raw);
    if checked.Err? {
      return Err(checked.error);
    }
    var data := checked.value;
    var nrzI := EncodeNrzI(data, lvl);
    var ami := EncodeBipolarAmi(data, lvl);
    var pseudo := EncodePseudoternary(data, lvl);
    var mt, ms := EncodeManchester(data);
    var dt, ds := EncodeDifferentialManchester(data, lvl);
    r := Ok([ Plot("NRZ-L", "NRZ-L (Non-Return to Zero Level)", Steps(NrzL(data))),
              Plot("NRZ-I", "NRZ-I (Non-Return to Zero Inverted)", Steps(nrzI)),
              Plot("Bipolar AMI", "Bipolar AMI (Alternate Mark Inversion)", Steps(ami)),
              Plot("Pseudoternary", "Pseudoternary", Steps(pseudo)),
              Plot("Manchester", "Manchester", Transitions(mt, ms)),
              Plot("Differential Manchester", "Differential Manchester", Transitions(dt, ds)) ]);
  }
}
