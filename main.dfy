/** The region handling of main in regions.c: collecting the -R regions (with the
    "d"/"g" shorthands), the optional merge, and the per-region loop that checks
    validity, buffers and selects the output mode. Option parsing is not modelled:
    the loop receives what getopt_long collected, and output is a trace of values. */
module RegionsMain {
  import opened Regions
  import opened RegionParse
  import opened RegionOutput

  /** What main's option loop hands to the per-region loop: how often -m, -b, -e and -n
      were given, and the value of the last -b. */
  datatype Options = Options(merge: nat, buffer: nat, bval: real, echo: nat, name: nat)

  /** One emitted region. An echo line carries the "-R" prefix exactly when `marked`. */
  datatype Output =
    | EchoLine(region: Region, marked: bool)
    | NameLine(name: NameString)
    | FeatureBlock(feature: Feature)

  /** The outcome of a run: the usage text (no region given), or the emitted regions. */
  datatype Outcome = UsageExit | Printed(lines: seq<Output>)

  /** The output mode chosen for the region at index i: echo wins over name, name over
      the polygon feature; region_echo drops the "-R" prefix only when -e was given
      exactly twice. */
  function Render(r: Region, i: int, opts: Options): (o: Output)
    ensures o.EchoLine? <==> opts.echo != 0
    ensures o.NameLine? <==> opts.echo == 0 && opts.name != 0
    ensures o.FeatureBlock? <==> opts.echo == 0 && opts.name == 0
    ensures o.EchoLine? ==> o.region == r && (o.marked <==> opts.echo != 2)
    ensures o.NameLine? ==> o.name == NameOf(r)
    ensures o.FeatureBlock? ==> o.feature == FormatOf(r, i) && (o.feature.header <==> i == 0)
  {
    if opts.echo != 0 then EchoLine(r, opts.echo != 2)
    else if opts.name != 0 then NameLine(NameOf(r))
    else FeatureBlock(FormatOf(r, i))
  }

  /** The regions the loop walks: just the envelope after a merge, all of them otherwise. */
  function Pending(rs: seq<Region>, opts: Options): (ps: seq<Region>)
    requires |rs| >= 1
    ensures opts.merge != 0 ==> |ps| == 1 && forall k :: 0 <= k < |rs| ==> Contains(ps[0], rs[k])
    ensures opts.merge == 0 ==> ps == rs
  {
    if opts.merge != 0 then [Envelope(rs)] else rs
  }

  /** A region after the optional buffer. */
  function Buffered(r: Region, opts: Options): Region
  {
    if opts.buffer != 0 then Extended(r, opts.bval) else r
  }

  /** A buffered region keeps its centre; with -b its width and height grow by twice
      the margin, without it they stay. */
  lemma BufferedGeometry(r: Region, opts: Options)
    ensures Center(Buffered(r, opts)) == Center(r)
    ensures var b := Buffered(r, opts);
      b.xmax - b.xmin == (r.xmax - r.xmin) + (if opts.buffer != 0 then 2.0 * opts.bval else 0.0) &&
      b.ymax - b.ymin == (r.ymax - r.ymin) + (if opts.buffer != 0 then 2.0 * opts.bval else 0.0)
  {
  }

  /** What the loop leaves in an array entry: buffered only if it was valid. */
  function Settled(r: Region, opts: Options): Region {
    if RegionP(r) != 0 then Buffered(r, opts) else r
  }

  /** The output of the loop from index i on: a region valid before buffering is
      buffered and rendered; an invalid one produces nothing. */
  function EmitFrom(ps: seq<Region>, opts: Options, i: nat): seq<Output>
    decreases |ps| - i
  {
    if i >= |ps| then []
    else (if RegionP(ps[i]) != 0 then [Render(Buffered(ps[i], opts), i, opts)] else [])
         + EmitFrom(ps, opts, i + 1)
  }

  /** Everything the loop of main emits for the parsed regions rs. */
  function Emitted(rs: seq<Region>, opts: Options): seq<Output>
    requires |rs| >= 1
  {
    EmitFrom(Pending(rs, opts), opts, 0)
  }

  /** The region array after the loop: the entries walked are settled, the others
      (entries 1.. after a merge) keep their parsed values. */
  function Final(rs: seq<Region>, opts: Options): (fs: seq<Region>)
    requires |rs| >= 1
    ensures |fs| == |rs|
  {
    var ps := Pending(rs, opts);
    seq(|rs|, k requires 0 <= k < |rs| => if k < |ps| then Settled(ps[k], opts) else rs[k])
  }

  /** Lines 284-302 of main: merge if asked (and then walk index 0 only), then walk
      the regions. */
  method ProcessRegions(rgns: array<Region>, opts: Options) returns (out: seq<Output>)
    requires rgns.Length >= 1
    modifies rgns
    ensures out == Emitted(old(rgns[..]), opts)
    ensures rgns[..] == Final(old(rgns[..]), opts)
  {
    ghost var rs := rgns[..];
    var rflag := rgns.Length;
    if opts.merge != 0 {
      assert rs[..rflag] == rs;
      MergeRegions(rgns, rflag);
      rflag := 1;
    }
    ghost var ps := Pending(rs, opts);
    assert rgns[..rflag] == ps;
    out := WalkRegions(rgns, rflag, opts);
    FinalFrom(rs, opts, rgns[..]);
  }

  /** The loop of lines 291-302: each of the first rflag regions that is valid is
      buffered in place (when -b was given) and then emitted. */
  method WalkRegions(rgns: array<Region>, rflag: int, opts: Options) returns (out: seq<Output>)
    requires 0 <= rflag <= rgns.Length
    modifies rgns
    ensures out == EmitFrom(old(rgns[..rflag]), opts, 0)
    ensures forall k :: 0 <= k < rflag ==> rgns[k] == Settled(old(rgns[k]), opts)
    ensures forall k :: rflag <= k < rgns.Length ==> rgns[k] == old(rgns[k])
  {
    ghost var a := rgns[..];
    ghost var ps := rgns[..rflag];
    out := [];
    var i := 0;
    while i < rflag
      invariant 0 <= i <= rflag
      invariant out + EmitFrom(ps, opts, i) == EmitFrom(ps, opts, 0)
      invariant forall k :: 0 <= k < i ==> rgns[k] == Settled(a[k], opts)
      invariant forall k :: i <= k < rgns.Length ==> rgns[k] == a[k]
    {
      ghost var before := out;
      ghost var line := if RegionP(ps[i]) != 0 then [Render(Buffered(ps[i], opts), i, opts)] else [];
      EmitStep(ps, opts, i);
      if RegionP(rgns[i]) != 0 {
        if opts.buffer != 0 {
          ExtendAt(rgns, i, opts.bval);
        }
        out := out + [Render(rgns[i], i, opts)];
      }
      assert out == before + line;
      AppendAssoc(before, line, EmitFrom(ps, opts, i + 1));
      i := i + 1;
    }
  }

  /** One step of the loop: the output of index i followed by the rest. */
  lemma EmitStep(ps: seq<Region>, opts: Options, i: nat)
    requires i < |ps|
    ensures EmitFrom(ps, opts, i) ==
      (if RegionP(ps[i]) != 0 then [Render(Buffered(ps[i], opts), i, opts)] else []) + EmitFrom(ps, opts, i + 1)
  {
  }

  /** An array whose walked entries are settled and whose others are as parsed is Final. */
  lemma FinalFrom(rs: seq<Region>, opts: Options, a: seq<Region>)
    requires |rs| >= 1 && |a| == |rs|
    requires forall k :: 0 <= k < |Pending(rs, opts)| ==> a[k] == Settled(Pending(rs, opts)[k], opts)
    requires forall k :: |Pending(rs, opts)| <= k < |rs| ==> a[k] == rs[k]
    ensures a == Final(rs, opts)
  {
  }

  /** The regions collected from the -R arguments, each shorthand expanded afresh. */
  function ParseAll(args: seq<string>, atof: string -> real, uninit: Region): (rs: seq<Region>)
    ensures |rs| == |args|
  {
    seq(|args|, k requires 0 <= k < |args| => Parsed(Expand(args[k]), atof, uninit))
  }

  /** The -R case of main's option loop: each argument, or the preset its shorthand
      names, is parsed and appended to the growing region list, in argument order.
      Each shorthand hands region_parse a fresh copy of its preset. */
  method ReadRegions(args: seq<string>, atof: string -> real, uninit: Region) returns (rs: seq<Region>)
    ensures |rs| == |args|
    ensures forall k :: 0 <= k < |args| ==> rs[k] == Parsed(Expand(args[k]), atof, uninit)
  {
    rs := [];
    for k := 0 to |args|
      invariant |rs| == k
      invariant forall j :: 0 <= j < k ==> rs[j] == Parsed(Expand(args[j]), atof, uninit)
    {
      var r := ReadOne(args[k], atof, uninit);
      rs := rs + [r];
    }
  }

  /** One -R argument: the shorthand expanded, then region_parse. */
  method ReadOne(arg: string, atof: string -> real, uninit: Region) returns (r: Region)
    ensures r == Parsed(Expand(arg), atof, uninit)
  {
    var region := Expand(arg);
    r := Parse(region, atof, uninit);
  }

  /** main without the option parsing: no -R gives the usage text; otherwise the regions
      are collected, then merged, buffered and emitted. */
  method RunMain(regionArgs: seq<string>, opts: Options, atof: string -> real, uninit: Region)
    returns (res: Outcome)
    ensures regionArgs == [] <==> res == UsageExit
    ensures regionArgs != [] ==> res == Printed(Emitted(ParseAll(regionArgs, atof, uninit), opts))
  {
    if |regionArgs| == 0 {
      return UsageExit;
    }
    var rs := ReadRegions(regionArgs, atof, uninit);
    assert rs == ParseAll(regionArgs, atof, uninit);
    var rgns := new Region[|rs|](k requires 0 <= k < |rs| => rs[k]);
    assert rgns[..] == rs;
    var out := ProcessRegions(rgns, opts);
    res := Printed(out);
  }

  /** What the loop emits from index j on is exactly the rendering of each region
      valid before buffering, at its own index. */
  lemma {:induction false} EmitFromMembership(ps: seq<Region>, opts: Options, j: nat, o: Output)
    ensures o in EmitFrom(ps, opts, j) <==>
      exists i :: j <= i < |ps| && RegionP(ps[i]) == 1 && o == Render(Buffered(ps[i], opts), i, opts)
    decreases |ps| - j
  {
    if j < |ps| {
      EmitFromMembership(ps, opts, j + 1, o);
      var here := Render(Buffered(ps[j], opts), j, opts);
      var line := if RegionP(ps[j]) != 0 then [here] else [];
      var rest := EmitFrom(ps, opts, j + 1);
      assert EmitFrom(ps, opts, j) == line + rest;
      assert o in line + rest <==> o in line || o in rest;
      assert o in line <==> RegionP(ps[j]) == 1 && o == here;
    }
  }

  /** A region is emitted if and only if it was valid before buffering; what is emitted
      is the buffered region in the chosen mode. */
  lemma EmittedMembership(rs: seq<Region>, opts: Options, o: Output)
    requires |rs| >= 1
    ensures var ps := Pending(rs, opts);
      o in Emitted(rs, opts) <==>
      exists i :: 0 <= i < |ps| && RegionP(ps[i]) == 1 && o == Render(Buffered(ps[i], opts), i, opts)
  {
    EmitFromMembership(Pending(rs, opts), opts, 0, o);
  }

  /** The number of valid regions among ps[j..]. */
  function CountValid(ps: seq<Region>, j: nat): (n: nat)
    ensures n <= if j < |ps| then |ps| - j else 0
    decreases |ps| - j
  {
    if j >= |ps| then 0
    else (if RegionP(ps[j]) != 0 then 1 else 0) + CountValid(ps, j + 1)
  }

  /** The loop emits exactly one line per walked region that is valid, so at most one
      per walked region. */
  lemma {:induction false} EmitFromLength(ps: seq<Region>, opts: Options, j: nat)
    ensures |EmitFrom(ps, opts, j)| == CountValid(ps, j)
    decreases |ps| - j
  {
    if j < |ps| {
      EmitFromLength(ps, opts, j + 1);
    }
  }

  /** After a merge exactly one region is walked, so at most one line is emitted: the
      envelope (buffered) if it is valid, nothing otherwise. */
  lemma MergeEmitsEnvelope(rs: seq<Region>, opts: Options)
    requires |rs| >= 1 && opts.merge != 0
    ensures Emitted(rs, opts) ==
      if RegionP(Envelope(rs)) == 1 then [Render(Buffered(Envelope(rs), opts), 0, opts)] else []
  {
    assert EmitFrom([Envelope(rs)], opts, 1) == [];
  }

  /** In polygon mode the header block goes only with index 0: it is emitted exactly when
      the first walked region is valid, and then it leads the output. */
  lemma HeaderOnlyFirst(rs: seq<Region>, opts: Options)
    requires |rs| >= 1
    ensures var out, ps := Emitted(rs, opts), Pending(rs, opts);
      forall k :: 0 <= k < |out| && out[k].FeatureBlock? && out[k].feature.header ==>
        k == 0 && RegionP(ps[0]) == 1
    ensures var out, ps := Emitted(rs, opts), Pending(rs, opts);
      opts.echo == 0 && opts.name == 0 && RegionP(ps[0]) == 1 ==>
        |out| >= 1 && out[0].FeatureBlock? && out[0].feature.header
  {
    var ps := Pending(rs, opts);
    var out := Emitted(rs, opts);
    forall k | 0 <= k < |out| && out[k].FeatureBlock? && out[k].feature.header
      ensures k == 0 && RegionP(ps[0]) == 1
    {
      var tail := EmitFrom(ps, opts, 1);
      if RegionP(ps[0]) != 0 {
        assert out == [Render(Buffered(ps[0], opts), 0, opts)] + tail;
        if k > 0 {
          NoHeaderAfterFirst(ps, opts, tail[k - 1]);
          assert false;
        }
      } else {
        assert out == tail;
        NoHeaderAfterFirst(ps, opts, tail[k]);
        assert false;
      }
    }
  }

  /** No line emitted for an index other than 0 carries the header. */
  lemma NoHeaderAfterFirst(ps: seq<Region>, opts: Options, o: Output)
    requires o in EmitFrom(ps, opts, 1)
    ensures !(o.FeatureBlock? && o.feature.header)
  {
    EmitFromMembership(ps, opts, 1, o);
  }

  /** Buffering by zero emits what no buffering emits. */
  lemma {:induction false} ZeroBufferFrom(ps: seq<Region>, opts: Options, j: nat)
    requires opts.bval == 0.0
    ensures EmitFrom(ps, opts, j) == EmitFrom(ps, opts.(buffer := 0), j)
    decreases |ps| - j
  {
    if j < |ps| {
      ZeroBufferFrom(ps, opts, j + 1);
      ExtendedByZero(ps[j]);
    }
  }

  lemma ZeroBuffer(rs: seq<Region>, opts: Options)
    requires |rs| >= 1 && opts.bval == 0.0
    ensures Emitted(rs, opts) == Emitted(rs, opts.(buffer := 0))
  {
    ZeroBufferFrom(Pending(rs, opts), opts, 0);
  }

  /** Validity is tested before buffering: a region that a negative buffer turns
      inside out is still emitted. */
  lemma BufferedAfterCheck()
    ensures Emitted([Region(0.0, 1.0, 0.0, 1.0)], Options(0, 1, -1.0, 1, 0)) ==
            [EchoLine(Region(1.0, 0.0, 1.0, 0.0), true)]
    ensures RegionP(Region(1.0, 0.0, 1.0, 0.0)) == 0
  {
  }

  /** A region with equal west and east bounds produces no output. */
  lemma DegenerateSilent(opts: Options)
    ensures Emitted([Region(5.0, 5.0, -1.0, 1.0)], opts) == []
  {
  }

  /** Merging -10/10/-5/5 with 0/20/0/10 and echoing gives -10/20/-5/10. */
  lemma MergeExample()
    ensures Emitted([Region(-10.0, 10.0, -5.0, 5.0), Region(0.0, 20.0, 0.0, 10.0)], Options(1, 0, 0.0, 1, 0)) ==
            [EchoLine(Region(-10.0, 20.0, -5.0, 10.0), true)]
  {
    var rs := [Region(-10.0, 10.0, -5.0, 5.0), Region(0.0, 20.0, 0.0, 10.0)];
    assert rs[..1] == [rs[0]];
  }

  /** Buffering -10/10/-5/5 by 2 and echoing gives -12/12/-7/7. */
  lemma BufferExample()
    ensures Emitted([Region(-10.0, 10.0, -5.0, 5.0)], Options(0, 1, 2.0, 1, 0)) ==
            [EchoLine(Region(-12.0, 12.0, -7.0, 7.0), true)]
  {
  }

  /** main's -R loop as written: "d" and "g" hand region_parse main's own preset buffers,
      which strtok cuts in place, so a later use of the same shorthand parses only what
      that buffer still shows. */
  function ReadAsWritten(args: seq<string>, bufD: string, bufG: string,
                         atof: string -> real, uninit: Region): (rs: seq<Region>)
    ensures |rs| == |args|
    decreases |args|
  {
    if args == [] then []
    else if args[0] == "d" then
      [Parsed(bufD, atof, uninit)] + ReadAsWritten(args[1..], AfterStrtok(bufD), bufG, atof, uninit)
    else if args[0] == "g" then
      [Parsed(bufG, atof, uninit)] + ReadAsWritten(args[1..], bufD, AfterStrtok(bufG), atof, uninit)
    else
      [Parsed(args[0], atof, uninit)] + ReadAsWritten(args[1..], bufD, bufG, atof, uninit)
  }

  /** As written, "-R d -R d" gives a second region with only its west bound set:
      the other three hold whatever region_parse's local region_t held. */
  lemma RepeatedShorthandAsWritten(atof: string -> real, uninit: Region)
    requires atof("-180") == -180.0 && atof("180") == 180.0
    requires atof("-90") == -90.0 && atof("90") == 90.0
    ensures ReadAsWritten(["d", "d"], RegionD, RegionG, atof, uninit) ==
            [Region(-180.0, 180.0, -90.0, 90.0), Region(-180.0, uninit.xmax, uninit.ymin, uninit.ymax)]
    ensures uninit.xmax != 180.0 ==>
            ReadAsWritten(["d", "d"], RegionD, RegionG, atof, uninit)[1] != ParseAll(["d", "d"], atof, uninit)[1]
  {
    ReadTwiceD(RegionD, RegionG, atof, uninit);
    CutPresetD(atof, uninit);
    ShorthandD(atof, uninit);
  }

  /** Two uses of "d" parse the "d" buffer as it is and then as strtok left it. */
  lemma ReadTwiceD(bufD: string, bufG: string, atof: string -> real, uninit: Region)
    ensures ReadAsWritten(["d", "d"], bufD, bufG, atof, uninit) ==
            [Parsed(bufD, atof, uninit), Parsed(AfterStrtok(bufD), atof, uninit)]
  {
    var args: seq<string> := ["d", "d"];
    assert args[1..] == ["d"];
    assert args[1..][1..] == [];
  }

  /** What the "d" preset buffer reads as once strtok has cut it. */
  lemma CutPresetD(atof: string -> real, uninit: Region)
    ensures Parsed(AfterStrtok(RegionD), atof, uninit) == Region(atof("-180"), uninit.xmax, uninit.ymin, uninit.ymax)
  {
    assert RegionD == Join(["-180", "180", "-90", "90"]);
    TokensJoin(["-180", "180", "-90", "90"]);
    AfterStrtokTokens(RegionD);
    ParsedPositional(AfterStrtok(RegionD), atof, uninit);
  }

  /** With a fresh copy of the preset each time, every "d" gives the whole world. */
  lemma RepeatedShorthandFixed(args: seq<string>, atof: string -> real, uninit: Region)
    requires atof("-180") == -180.0 && atof("180") == 180.0
    requires atof("-90") == -90.0 && atof("90") == 90.0
    ensures forall k :: 0 <= k < |args| && args[k] == "d" ==>
      ParseAll(args, atof, uninit)[k] == Region(-180.0, 180.0, -90.0, 90.0)
  {
    ShorthandD(atof, uninit);
  }
}
