/** `parseStatusCodeMapping`, which turns a configuration string such as
    `494:400,529:503` into a map from status code to status code, and the
    single lookup both handlers apply to a working status code. The legacy
    handler in rootfs/main.go carries a textually identical copy of the
    parser; this one module models both. */
module StatusMapping {
  import opened Wrappers
  import opened GoText
  import Assoc

  /** The two panics of the parser: a piece without `:` (reported with the
      whole configuration) and a side that `strconv.Atoi` rejects. */
  datatype ConfigError = MissingColon(config: string) | NotAnInteger(text: string)

  /** One `SRC:DST` piece: cut at its first `:`, then both sides must be
      integers. */
  function ParsePair(config: string, piece: string): Result<(int, int), ConfigError> {
    var c := Cut(piece, ':');
    if !c.found then Err(MissingColon(config))
    else
      match Atoi(c.before)
      case None => Err(NotAnInteger(c.before))
      case Some(src) =>
        match Atoi(c.after)
        case None => Err(NotAnInteger(c.after))
        case Some(dst) => Ok((src, dst))
  }

  /** What the loop does with one piece: write the pair, or panic. */
  function PairStep(config: string, piece: string): Result<Option<(int, int)>, ConfigError> {
    match ParsePair(config, piece)
    case Ok(pair) => Ok(Some(pair))
    case Err(e) => Err(e)
  }

  function Stepper(config: string): Assoc.Step<string, int, int, ConfigError> {
    piece => PairStep(config, piece)
  }

  /** The step is a write exactly when the piece parses. */
  lemma StepperOf(config: string, piece: string)
    ensures Stepper(config)(piece).Ok? <==> ParsePair(config, piece).Ok?
    ensures ParsePair(config, piece).Ok? ==> Stepper(config)(piece) == Ok(Some(ParsePair(config, piece).value))
  {
    assert Stepper(config)(piece) == PairStep(config, piece);
  }

  /** What `parseStatusCodeMapping(config)` returns, or the panic it
      raises. The nil map returned for an empty configuration is modelled
      by the empty map, which a lookup cannot tell apart from it. */
  function MappingOf(config: string): Result<map<int, int>, ConfigError> {
    if config == "" then Ok(map[]) else Assoc.Collect(Stepper(config), Split(config, ','))
  }

  /** The loop of `parseStatusCodeMapping`. */
  method ParseStatusCodeMapping(config: string) returns (r: Result<map<int, int>, ConfigError>)
    ensures r == MappingOf(config)
  {
    if config == "" {
      return Ok(map[]);
    }
    var mapping: map<int, int> := map[];
    var pieces := Split(config, ',');
    for i := 0 to |pieces|
      invariant Assoc.Collect(Stepper(config), pieces[..i]) == Ok(mapping)
    {
      var pair := pieces[i];
      assert pieces[..i + 1][..i] == pieces[..i];
      var c := Cut(pair, ':');
      if !c.found {
        Assoc.CollectErrorSticks(Stepper(config), pieces, i + 1);
        return Err(MissingColon(config));
      }
      var srcCode := Atoi(c.before);
      if srcCode.None? {
        Assoc.CollectErrorSticks(Stepper(config), pieces, i + 1);
        return Err(NotAnInteger(c.before));
      }
      var dstCode := Atoi(c.after);
      if dstCode.None? {
        Assoc.CollectErrorSticks(Stepper(config), pieces, i + 1);
        return Err(NotAnInteger(c.after));
      }
      mapping := mapping[srcCode.value := dstCode.value];
    }
    assert pieces[..|pieces|] == pieces;
    return Ok(mapping);
  }

  /** An empty configuration maps nothing: every code is left as it is. */
  lemma EmptyConfigIsIdentity(code: int)
    ensures MappingOf("") == Ok(map[]) && Remap(MappingOf("").value, code) == code
  {
  }

  /** A non-empty configuration parses exactly when every comma-separated
      piece holds a `:` with an integer on each side; otherwise the
      parser panics. */
  lemma MappingSucceeds(config: string)
    requires config != ""
    ensures MappingOf(config).Ok? <==>
            forall i | 0 <= i < |Split(config, ',')| :: ParsePair(config, Split(config, ',')[i]).Ok?
  {
    var pieces := Split(config, ',');
    assert MappingOf(config) == Assoc.Collect(Stepper(config), pieces);
    Assoc.CollectSucceeds(Stepper(config), pieces);
    if MappingOf(config).Ok? {
      forall i | 0 <= i < |pieces| ensures ParsePair(config, pieces[i]).Ok? {
        StepperOf(config, pieces[i]);
      }
    } else {
      var i :| 0 <= i < |pieces| && !Stepper(config)(pieces[i]).Ok?;
      StepperOf(config, pieces[i]);
      assert !ParsePair(config, pieces[i]).Ok?;
      assert !ParsePair(config, Split(config, ',')[i]).Ok?;
    }
  }

  /** A piece without `:` makes the whole configuration fail. */
  lemma MissingColonFails(config: string, i: nat)
    requires config != "" && i < |Split(config, ',')| && ':' !in Split(config, ',')[i]
    ensures MappingOf(config).Err?
  {
    MappingSucceeds(config);
    assert !ParsePair(config, Split(config, ',')[i]).Ok?;
  }

  /** A piece whose source is not an integer makes the whole configuration
      fail. */
  lemma BadSourceFails(config: string, i: nat)
    requires config != "" && i < |Split(config, ',')|
    requires Atoi(Cut(Split(config, ',')[i], ':').before).None?
    ensures MappingOf(config).Err?
  {
    MappingSucceeds(config);
    assert !ParsePair(config, Split(config, ',')[i]).Ok?;
  }

  /** For a source code given more than once, the last pair wins. */
  lemma LastDuplicateWins(config: string, i: nat, src: int, dst: int)
    requires config != "" && MappingOf(config).Ok?
    requires i < |Split(config, ',')| && ParsePair(config, Split(config, ',')[i]) == Ok((src, dst))
    requires var pieces := Split(config, ',');
             forall j | i < j < |pieces| :: !(ParsePair(config, pieces[j]).Ok? && ParsePair(config, pieces[j]).value.0 == src)
    ensures src in MappingOf(config).value && MappingOf(config).value[src] == dst
  {
    var pieces := Split(config, ',');
    assert MappingOf(config) == Assoc.Collect(Stepper(config), pieces);
    StepperOf(config, pieces[i]);
    forall j | i < j < |pieces| ensures !Assoc.WritesKey(Stepper(config), pieces[j], src) {
      StepperOf(config, pieces[j]);
    }
    Assoc.CollectLastWins(Stepper(config), pieces, i, src, dst);
  }

  /** After parsing, a code is remapped exactly when some piece has it as
      its source. */
  lemma MappingKeys(config: string, src: int)
    requires config != "" && MappingOf(config).Ok?
    ensures src in MappingOf(config).value <==>
            exists i | 0 <= i < |Split(config, ',')| ::
              ParsePair(config, Split(config, ',')[i]).Ok? && ParsePair(config, Split(config, ',')[i]).value.0 == src
  {
    var pieces := Split(config, ',');
    assert MappingOf(config) == Assoc.Collect(Stepper(config), pieces);
    Assoc.CollectKeys(Stepper(config), pieces, src);
    if src in MappingOf(config).value {
      var i :| 0 <= i < |pieces| && Assoc.WritesKey(Stepper(config), pieces[i], src);
      StepperOf(config, pieces[i]);
      assert ParsePair(config, Split(config, ',')[i]).Ok? && ParsePair(config, Split(config, ',')[i]).value.0 == src;
    } else {
      forall i | 0 <= i < |pieces|
        ensures !(ParsePair(config, Split(config, ',')[i]).Ok? && ParsePair(config, Split(config, ',')[i]).value.0 == src)
      {
        StepperOf(config, pieces[i]);
        assert !Assoc.WritesKey(Stepper(config), pieces[i], src);
      }
    }
  }

  /** The configuration text of a list of pairs, as an operator writes it. */
  function FormatPair(pair: (int, int)): string {
    FormatInt(pair.0) + ":" + FormatInt(pair.1)
  }

  function FormatPieces(pairs: seq<(int, int)>): seq<string> {
    seq(|pairs|, i requires 0 <= i < |pairs| => FormatPair(pairs[i]))
  }

  function FormatMapping(pairs: seq<(int, int)>): string {
    Join(FormatPieces(pairs), ',')
  }

  /** A pair written as `SRC:DST` parses back to itself. */
  lemma ParsePairOfFormatted(config: string, pair: (int, int))
    requires InIntRange(pair.0) && InIntRange(pair.1)
    ensures ParsePair(config, FormatPair(pair)) == Ok(pair)
  {
    var src, dst := FormatInt(pair.0), FormatInt(pair.1);
    assert FormatPair(pair) == src + [':'] + dst;
    assert ':' !in src;
    CutAt(src, ':', dst);
    AtoiFormatInt(pair.0);
    AtoiFormatInt(pair.1);
  }

  /** A written pair is one piece of the configuration, and the loop
      writes it. */
  lemma ParseFormattedPair(config: string, pair: (int, int))
    requires InIntRange(pair.0) && InIntRange(pair.1)
    ensures ',' !in FormatPair(pair)
    ensures Stepper(config)(FormatPair(pair)) == Ok(Some(pair))
  {
    ParsePairOfFormatted(config, pair);
    StepperOf(config, FormatPair(pair));
    assert ',' !in FormatInt(pair.0) && ',' !in FormatInt(pair.1);
  }

  /** Round trip: writing a list of pairs as `SRC:DST,...` and parsing it
      gives the map that writes the pairs in order; no pairs are the empty
      configuration. */
  lemma MappingOfFormatted(pairs: seq<(int, int)>)
    requires forall i | 0 <= i < |pairs| :: InIntRange(pairs[i].0) && InIntRange(pairs[i].1)
    ensures MappingOf(FormatMapping(pairs)) == Ok(Assoc.FromPairs(pairs))
  {
    if pairs == [] {
      assert FormatPieces(pairs) == [];
      return;
    }
    var config := FormatMapping(pairs);
    var pieces := FormatPieces(pairs);
    forall i | 0 <= i < |pieces|
      ensures ',' !in pieces[i] && Stepper(config)(pieces[i]) == Ok(Some(pairs[i]))
    {
      ParseFormattedPair(config, pairs[i]);
    }
    SplitJoin(pieces, ',');
    assert config != "" by {
      assert |FormatInt(pairs[0].0)| > 0;
      if |pieces| > 1 {
        assert config == pieces[0] + [','] + Join(pieces[1..], ',');
      }
    }
    Assoc.CollectAllWrites(Stepper(config), pieces, pairs);
  }

  /** The documented configuration is the text of its two pairs. */
  lemma DocumentedConfigText()
    ensures FormatMapping([(494, 400), (529, 503)]) == "494:400,529:503"
  {
    assert FormatInt(494) == "494" && FormatInt(400) == "400";
    assert FormatInt(529) == "529" && FormatInt(503) == "503";
    assert FormatPair((494, 400)) == "494:400" && FormatPair((529, 503)) == "529:503";
    assert FormatPieces([(494, 400), (529, 503)]) == ["494:400", "529:503"];
  }

  /** The documented pairs, written in order, give the documented map. */
  lemma DocumentedPairs()
    ensures Assoc.FromPairs([(494, 400), (529, 503)]) == map[494 := 400, 529 := 503]
  {
    var pairs: seq<(int, int)> := [(494, 400), (529, 503)];
    assert pairs[..1] == [(494, 400)] && |pairs[..1][..0]| == 0;
  }

  /** The example configuration of the source's documentation. */
  lemma DocumentedExample()
    ensures MappingOf("494:400,529:503") == Ok(map[494 := 400, 529 := 503])
  {
    var pairs: seq<(int, int)> := [(494, 400), (529, 503)];
    calc {
      MappingOf("494:400,529:503");
      { DocumentedConfigText(); }
      MappingOf(FormatMapping(pairs));
      { MappingOfFormatted(pairs); }
      Ok(Assoc.FromPairs(pairs));
      { DocumentedPairs(); }
      Ok(map[494 := 400, 529 := 503]);
    }
  }

  /** The one-step remap: the mapped code when the mapping has the code,
      the code itself otherwise. */
  function Remap(mapping: map<int, int>, code: int): (r: int)
    ensures code in mapping ==> r == mapping[code]
    ensures code !in mapping ==> r == code
  {
    if code in mapping then mapping[code] else code
  }

  /** The status code both handlers work with: the `X-Code` header parsed
      by `strconv.Atoi`, 404 when it is not an integer, then remapped
      once. */
  function WorkingCode(mapping: map<int, int>, codeHeader: string): int {
    Remap(mapping, match Atoi(codeHeader) case Some(code) => code case None => 404)
  }

  /** The status-code steps of both handler closures: parse `X-Code`,
      fall back to 404, then apply the remap. */
  method ReadCode(mapping: map<int, int>, codeHeader: string) returns (code: int)
    ensures code == WorkingCode(mapping, codeHeader)
  {
    var parsed := Atoi(codeHeader);
    if parsed.None? {
      code := 404;
    } else {
      code := parsed.value;
    }
    if code in mapping {
      code := mapping[code];
    }
  }

  /** An integer `X-Code` is used as written, then remapped once. */
  lemma WorkingCodeOfFormatted(mapping: map<int, int>, code: int)
    requires InIntRange(code)
    ensures WorkingCode(mapping, FormatInt(code)) == Remap(mapping, code)
  {
    AtoiFormatInt(code);
  }

  /** Any header that is not an integer, a missing one included, works
      like `404`; and since the remap comes after that fallback, a
      `404:DST` rule rewrites every such request. */
  lemma UnparseableCodeWorksAs404(mapping: map<int, int>, codeHeader: string)
    requires Atoi(codeHeader).None?
    ensures WorkingCode(mapping, codeHeader) == WorkingCode(mapping, "404")
    ensures WorkingCode(mapping, codeHeader) == Remap(mapping, 404)
  {
    assert FormatInt(404) == "404";
    WorkingCodeOfFormatted(mapping, 404);
  }

  /** The remap is applied once, not chained: with `1:2,2:3`, code 1
      becomes 2 even though 2 is itself mapped. */
  lemma RemapDoesNotChain()
    ensures var m := map[1 := 2, 2 := 3];
            Remap(m, 1) == 2 && Remap(m, Remap(m, 1)) == 3
  {
  }
}
