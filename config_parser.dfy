/**
 * config_parser: KEY=VALUE lines into a validated configuration. The file is
 * modelled as its sequence of lines; the lines are first collected into a
 * dictionary, then the dictionary is validated.
 */
module ConfigParser {
  import opened Wrappers
  import opened Text
  import opened MazeDefinitions

  /** Config: the validated settings. */
  datatype Config = Config(width: int, height: int, entry: Coord, exit: Coord,
                           outputFile: string, perfect: bool, seed: Option<int>)

  /** One kind per ValueError the loader raises. */
  datatype ConfigError =
    | InvalidBoolean(value: string)
    | InvalidCoordinate(value: string)
    | CoordinateNotIntegers(value: string)
    | BadSyntax(line: string)
    | EmptyKey(line: string)
    | MissingKeys(keys: seq<string>)
    | DimensionsNotIntegers
    | DimensionsNotPositive
    | EntryOutOfBounds(entry: Coord, width: int, height: int)
    | ExitOutOfBounds(exit: Coord, width: int, height: int)
    | SameEndpoints
    | EmptyOutputFile
    | SeedNotInteger

  /** The words _parse_bool reads as True. */
  predicate IsTrueWord(v: string)
  {
    v == "true" || v == "1" || v == "yes" || v == "y"
  }

  /** The words _parse_bool reads as False. */
  predicate IsFalseWord(v: string)
  {
    v == "false" || v == "0" || v == "no" || v == "n"
  }

  /** _REQUIRED_KEYS, in the sorted order in which missing ones are reported. */
  const REQUIRED_KEYS: seq<string> := ["ENTRY", "EXIT", "HEIGHT", "OUTPUT_FILE", "PERFECT", "WIDTH"]

  /** _parse_bool: the stripped, lower-cased value must be one of the accepted words. */
  function ParseBool(value: string): (r: Result<bool, ConfigError>)
    ensures r.Success? <==> IsTrueWord(Lower(Strip(value))) || IsFalseWord(Lower(Strip(value)))
    ensures r.Success? ==> r.value == IsTrueWord(Lower(Strip(value)))
    ensures r.Failure? ==> r.error == InvalidBoolean(value)
  {
    var v := Lower(Strip(value));
    if IsTrueWord(v) then Success(true)
    else if IsFalseWord(v) then Success(false)
    else Failure(InvalidBoolean(value))
  }

  /** A character that lower-cases to a visible one is visible. */
  lemma LowerKeepsVisible(c: char)
    requires !IsSpace(LowerChar(c))
    ensures !IsSpace(c)
  {
  }

  /** Any spelling of an accepted word in any letter case, padded by whitespace, is read as that word's value. */
  lemma ParseBoolSpellings(a: string, v: string, b: string)
    requires AllSpace(a) && AllSpace(b)
    requires IsTrueWord(Lower(v)) || IsFalseWord(Lower(v))
    ensures ParseBool(a + v + b) == Success(IsTrueWord(Lower(v)))
  {
    var w := Lower(v);
    assert w != [] && !IsSpace(w[0]) && !IsSpace(w[|w| - 1]);
    LowerKeepsVisible(v[0]);
    LowerKeepsVisible(v[|v| - 1]);
    StripPadding(a, v, b);
  }

  /** Any other value is rejected. */
  lemma ParseBoolRejects(value: string)
    requires !IsTrueWord(Lower(Strip(value))) && !IsFalseWord(Lower(Strip(value)))
    ensures ParseBool(value) == Failure(InvalidBoolean(value))
  {
  }

  /** The pieces of a split, each stripped. */
  function StrippedParts(value: string): (r: seq<string>)
    ensures |r| == |Split(value, ',')|
    ensures forall i :: 0 <= i < |r| ==> r[i] == Strip(Split(value, ',')[i])
  {
    var parts := Split(value, ',');
    seq(|parts|, i requires 0 <= i < |parts| => Strip(parts[i]))
  }

  /** _parse_coord: exactly two comma-separated integers. */
  function ParseCoord(value: string): (r: Result<Coord, ConfigError>)
    ensures r.Success? <==> && |Split(value, ',')| == 2
                            && ParseInt(Split(value, ',')[0]).Some?
                            && ParseInt(Split(value, ',')[1]).Some?
    ensures r.Success? ==> r.value == Coord(ParseInt(Split(value, ',')[0]).value, ParseInt(Split(value, ',')[1]).value)
    ensures r.Failure? ==> r.error == if |Split(value, ',')| != 2 then InvalidCoordinate(value) else CoordinateNotIntegers(value)
  {
    var parts := StrippedParts(value);
    if |parts| != 2 then Failure(InvalidCoordinate(value))
    else
      StripIdempotent(Split(value, ',')[0]);
      StripIdempotent(Split(value, ',')[1]);
      match (ParseInt(parts[0]), ParseInt(parts[1]))
      case (Some(x), Some(y)) => Success(Coord(x, y))
      case _ => Failure(CoordinateNotIntegers(value))
  }

  /** Stripping twice is stripping once. */
  lemma StripIdempotent(s: string)
    ensures Strip(Strip(s)) == Strip(s)
  {
    var t := Strip(s);
    if t != [] {
      StripPadding([], t, []);
      assert [] + t + [] == t;
    }
  }

  /** Two comma-free pieces that parse as integers, with a comma between them, parse as that coordinate. */
  lemma ParseCoordOfParts(left: string, right: string, x: int, y: int)
    requires ',' !in left && ',' !in right
    requires ParseInt(left) == Some(x) && ParseInt(right) == Some(y)
    ensures ParseCoord(left + "," + right) == Success(Coord(x, y))
  {
    var s := left + "," + right;
    assert Split(s, ',') == [left, right] by {
      assert s == left + [','] + right;
      SplitTwo(left, right, ',');
    }
  }

  /** An integer with whitespace around it has no comma. */
  lemma PaddedIntNoComma(n: int, a: string, b: string)
    requires AllSpace(a) && AllSpace(b)
    ensures ',' !in a + IntToString(n) + b
  {
    var s := a + IntToString(n) + b;
    forall i | 0 <= i < |s| ensures s[i] != ',' {
      if i < |a| { assert s[i] == a[i]; }
      else if i < |a| + |IntToString(n)| { assert s[i] == IntToString(n)[i - |a|]; }
      else { assert s[i] == b[i - |a| - |IntToString(n)|]; }
    }
  }

  /** Two integers written with a comma between them, whitespace allowed around each, read back as the coordinate. */
  lemma ParseCoordPadded(x: int, y: int, a: string, b: string, c: string, d: string)
    requires AllSpace(a) && AllSpace(b) && AllSpace(c) && AllSpace(d)
    ensures ParseCoord((a + IntToString(x) + b) + "," + (c + IntToString(y) + d)) == Success(Coord(x, y))
  {
    var left, right := a + IntToString(x) + b, c + IntToString(y) + d;
    assert ',' !in left && ParseInt(left) == Some(x) by {
      PaddedIntNoComma(x, a, b);
      ParseIntRoundTrip(x, a, b);
    }
    assert ',' !in right && ParseInt(right) == Some(y) by {
      PaddedIntNoComma(y, c, d);
      ParseIntRoundTrip(y, c, d);
    }
    ParseCoordOfParts(left, right, x, y);
  }

  /** Two integers written as "x,y" read back as the coordinate. */
  lemma ParseCoordFormatted(x: int, y: int)
    ensures ParseCoord(IntToString(x) + "," + IntToString(y)) == Success(Coord(x, y))
  {
    var left, right := IntToString(x), IntToString(y);
    ParseIntOfString(x);
    ParseIntOfString(y);
    ParseCoordOfParts(left, right, x, y);
  }

  /** What one line of the file contributes. */
  datatype LineParse = Skip | KeyValue(key: string, value: string) | Bad(error: ConfigError)

  /** One line of load_config's loop: blank and comment lines skipped, otherwise split on the first '='. */
  function ParseLine(raw: string): (r: LineParse)
    ensures r.Skip? <==> Strip(raw) == [] || Strip(raw)[0] == '#'
    ensures r.KeyValue? ==> r.key != [] && Upper(r.key) == r.key
  {
    var line := Strip(raw);
    if line == [] || line[0] == '#' then Skip
    else
      match FindFirst(line, '=')
      case None => Bad(BadSyntax(line))
      case Some(i) =>
        var key := Upper(Strip(line[..i]));
        UpperIdempotent(Strip(line[..i]));
        if key == [] then Bad(EmptyKey(line)) else KeyValue(key, Strip(line[i + 1..]))
  }

  /**
   * A line is skipped exactly when it strips to nothing or to a comment; a
   * line without '=' is bad syntax; otherwise the key is the upper-cased,
   * stripped text before the first '=' (an error when empty) and the value
   * the stripped text after it.
   */
  lemma ParseLineCases(raw: string)
    ensures var line, r := Strip(raw), ParseLine(raw);
            && (r == Skip <==> line == [] || line[0] == '#')
            && (r != Skip && '=' !in line ==> r == Bad(BadSyntax(line)))
            && (r != Skip && '=' in line ==>
                  exists i :: && 0 <= i < |line| && line[i] == '=' && '=' !in line[..i]
                              && (Upper(Strip(line[..i])) == [] ==> r == Bad(EmptyKey(line)))
                              && (Upper(Strip(line[..i])) != [] ==> r == KeyValue(Upper(Strip(line[..i])), Strip(line[i + 1..]))))
            && (r.KeyValue? ==> r.key != [] && Upper(r.key) == r.key)
  {
    var line := Strip(raw);
    if line != [] && line[0] != '#' && '=' in line {
      var i := FindFirst(line, '=').value;
      UpperIdempotent(Strip(line[..i]));
    }
  }

  /** What each line of the file contributes, in order. */
  function Parsed(lines: seq<string>): (ps: seq<LineParse>)
    ensures |ps| == |lines| && forall i :: 0 <= i < |lines| ==> ps[i] == ParseLine(lines[i])
  {
    seq(|lines|, i requires 0 <= i < |lines| => ParseLine(lines[i]))
  }

  /** The dictionary load_config fills, line by line; a later key overwrites an earlier one. */
  function Collect(ps: seq<LineParse>): Result<map<string, string>, ConfigError>
    decreases |ps|
  {
    if ps == [] then Success(map[])
    else
      match Collect(ps[..|ps| - 1])
      case Failure(e) => Failure(e)
      case Success(data) =>
        match ps[|ps| - 1]
        case Skip => Success(data)
        case KeyValue(k, v) => Success(data[k := v])
        case Bad(e) => Failure(e)
  }

  /** Once a prefix fails, the whole file fails with the same error. */
  lemma {:induction false} CollectPrefixFailure(ps: seq<LineParse>, n: nat)
    requires n <= |ps| && Collect(ps[..n]).Failure?
    ensures Collect(ps) == Collect(ps[..n])
    decreases |ps| - n
  {
    if n < |ps| {
      assert ps[..n + 1][..n] == ps[..n];
      CollectPrefixFailure(ps, n + 1);
    } else {
      assert ps[..n] == ps;
    }
  }

  /** The loop of load_config over the file's lines, stopping at the first bad line. */
  method ReadLines(lines: seq<string>) returns (r: Result<map<string, string>, ConfigError>)
    ensures r == Collect(Parsed(lines))
  {
    ghost var ps := Parsed(lines);
    var data: map<string, string> := map[];
    for i := 0 to |lines|
      invariant Collect(ps[..i]) == Success(data)
    {
      assert ps[..i + 1][..i] == ps[..i];
      var parsed := ParseLine(lines[i]);
      match parsed
      case Skip =>
      case KeyValue(k, v) =>
        data := data[k := v];
      case Bad(e) =>
        CollectPrefixFailure(ps, i + 1);
        return Failure(e);
    }
    assert ps[..|lines|] == ps;
    return Success(data);
  }

  /** Line i sets key k. */
  predicate SetsKey(ps: seq<LineParse>, i: int, k: string)
    requires 0 <= i < |ps|
  {
    ps[i].KeyValue? && ps[i].key == k
  }

  /** Line i sets key k and no later line sets it again. */
  predicate LastSetter(ps: seq<LineParse>, i: int, k: string)
    requires 0 <= i < |ps|
  {
    SetsKey(ps, i, k) && forall j :: i < j < |ps| ==> !SetsKey(ps, j, k)
  }

  /** The collected keys are exactly those some line sets. */
  lemma {:induction false} CollectKeys(ps: seq<LineParse>, k: string)
    requires Collect(ps).Success?
    ensures k in Collect(ps).value <==> exists i :: 0 <= i < |ps| && SetsKey(ps, i, k)
    decreases |ps|
  {
    if ps != [] {
      var n := |ps| - 1;
      var init := ps[..n];
      CollectKeys(init, k);
      assert forall i :: 0 <= i < n ==> init[i] == ps[i];
      if exists i :: 0 <= i < |ps| && SetsKey(ps, i, k) {
        var i :| 0 <= i < |ps| && SetsKey(ps, i, k);
        if i < n {
          assert SetsKey(init, i, k);
        }
      }
      if k in Collect(ps).value && !SetsKey(ps, n, k) {
        var i :| 0 <= i < n && SetsKey(init, i, k);
        assert SetsKey(ps, i, k);
      }
    }
  }

  /** Each collected key holds the value of the last line that sets it. */
  lemma {:induction false} CollectLastWins(ps: seq<LineParse>, k: string, i: int)
    requires Collect(ps).Success? && 0 <= i < |ps| && LastSetter(ps, i, k)
    ensures k in Collect(ps).value && Collect(ps).value[k] == ps[i].value
    decreases |ps|
  {
    var n := |ps| - 1;
    var init := ps[..n];
    if i < n {
      assert init[i] == ps[i];
      assert !SetsKey(ps, n, k);
      assert LastSetter(init, i, k) by {
        forall j | i < j < n ensures !SetsKey(init, j, k) {
          assert init[j] == ps[j];
          assert !SetsKey(ps, j, k);
        }
      }
      CollectLastWins(init, k, i);
    }
  }

  /** A file fails exactly when one of its lines is bad, and with the first bad line's error. */
  lemma {:induction false} CollectFailure(ps: seq<LineParse>)
    ensures Collect(ps).Failure? <==> exists i :: 0 <= i < |ps| && ps[i].Bad?
    ensures Collect(ps).Failure? ==>
              exists i :: && 0 <= i < |ps| && ps[i].Bad?
                          && Collect(ps).error == ps[i].error
                          && forall j :: 0 <= j < i ==> !ps[j].Bad?
    decreases |ps|
  {
    if ps != [] {
      var n := |ps| - 1;
      var init := ps[..n];
      CollectFailure(init);
      assert forall i :: 0 <= i < n ==> init[i] == ps[i];
      if Collect(init).Failure? {
        var i :| && 0 <= i < n && init[i].Bad?
                 && Collect(init).error == init[i].error
                 && forall j :: 0 <= j < i ==> !init[j].Bad?;
        assert ps[i].Bad?;
      }
    }
  }

  /** The required keys the dictionary lacks, in the order given. */
  function Missing(keys: seq<string>, data: map<string, string>): (r: seq<string>)
    ensures forall k :: k in r <==> k in keys && k !in data
    decreases |keys|
  {
    if keys == [] then []
    else if keys[0] in data then Missing(keys[1..], data)
    else [keys[0]] + Missing(keys[1..], data)
  }

  /** Python's string order: by code point, a proper prefix first. */
  predicate LexLess(a: string, b: string)
    decreases |a|
  {
    if a == [] then b != []
    else if b == [] then false
    else if a[0] != b[0] then a[0] < b[0]
    else LexLess(a[1..], b[1..])
  }

  predicate Sorted(keys: seq<string>)
  {
    forall i, j :: 0 <= i < j < |keys| ==> LexLess(keys[i], keys[j])
  }

  /** Missing keys of a sorted list come out sorted. */
  lemma {:induction false} MissingSorted(keys: seq<string>, data: map<string, string>)
    requires Sorted(keys)
    ensures Sorted(Missing(keys, data))
    decreases |keys|
  {
    if keys != [] {
      var tail := keys[1..];
      assert Sorted(tail) by {
        forall i, j | 0 <= i < j < |tail| ensures LexLess(tail[i], tail[j]) {
          assert tail[i] == keys[i + 1] && tail[j] == keys[j + 1];
        }
      }
      MissingSorted(tail, data);
      var rest := Missing(tail, data);
      if keys[0] !in data {
        var r := [keys[0]] + rest;
        forall i, j | 0 <= i < j < |r| ensures LexLess(r[i], r[j]) {
          if i == 0 {
            assert r[j] == rest[j - 1] && rest[j - 1] in tail;
            var q :| 0 <= q < |tail| && tail[q] == rest[j - 1];
            assert tail[q] == keys[q + 1];
          } else {
            assert r[i] == rest[i - 1] && r[j] == rest[j - 1];
          }
        }
      }
    }
  }

  /** The required keys are listed as sorted() orders them, so missing ones are reported in sorted order. */
  lemma RequiredKeysSorted(data: map<string, string>)
    ensures Sorted(REQUIRED_KEYS)
    ensures Sorted(Missing(REQUIRED_KEYS, data))
  {
    assert LexLess("ENTRY", "EXIT") && LexLess("EXIT", "HEIGHT") && LexLess("HEIGHT", "OUTPUT_FILE");
    assert LexLess("OUTPUT_FILE", "PERFECT") && LexLess("PERFECT", "WIDTH");
    assert LexLess("ENTRY", "HEIGHT") && LexLess("ENTRY", "OUTPUT_FILE") && LexLess("ENTRY", "PERFECT") && LexLess("ENTRY", "WIDTH");
    assert LexLess("EXIT", "OUTPUT_FILE") && LexLess("EXIT", "PERFECT") && LexLess("EXIT", "WIDTH");
    assert LexLess("HEIGHT", "PERFECT") && LexLess("HEIGHT", "WIDTH") && LexLess("OUTPUT_FILE", "WIDTH");
    MissingSorted(REQUIRED_KEYS, data);
  }

  /** Every required key is present. */
  predicate HasRequired(data: map<string, string>)
  {
    && "ENTRY" in data && "EXIT" in data && "HEIGHT" in data
    && "OUTPUT_FILE" in data && "PERFECT" in data && "WIDTH" in data
  }

  /** Nothing is missing exactly when every required key is present. */
  lemma NothingMissing(data: map<string, string>)
    ensures Missing(REQUIRED_KEYS, data) == [] <==> HasRequired(data)
  {
    var missing := Missing(REQUIRED_KEYS, data);
    assert REQUIRED_KEYS[0] == "ENTRY" && REQUIRED_KEYS[1] == "EXIT" && REQUIRED_KEYS[2] == "HEIGHT";
    assert REQUIRED_KEYS[3] == "OUTPUT_FILE" && REQUIRED_KEYS[4] == "PERFECT" && REQUIRED_KEYS[5] == "WIDTH";
  }

  /** WIDTH and HEIGHT: both integers, then both positive. */
  function ParseDimensions(widthText: string, heightText: string): (r: Result<(int, int), ConfigError>)
    ensures r.Success? <==> && ParseInt(widthText).Some? && ParseInt(heightText).Some?
                            && ParseInt(widthText).value > 0 && ParseInt(heightText).value > 0
    ensures r.Success? ==> r.value == (ParseInt(widthText).value, ParseInt(heightText).value)
    ensures r.Failure? ==> r.error == if ParseInt(widthText).None? || ParseInt(heightText).None?
                                      then DimensionsNotIntegers else DimensionsNotPositive
  {
    match (ParseInt(widthText), ParseInt(heightText))
    case (Some(width), Some(height)) =>
      if width <= 0 || height <= 0 then Failure(DimensionsNotPositive) else Success((width, height))
    case _ => Failure(DimensionsNotIntegers)
  }

  /** ENTRY and EXIT: both parsed, then each in bounds, then distinct. */
  function ParseEndpoints(entryText: string, exitText: string, width: int, height: int): (r: Result<(Coord, Coord), ConfigError>)
    ensures r.Success? <==> && ParseCoord(entryText).Success? && ParseCoord(exitText).Success?
                            && InBounds(ParseCoord(entryText).value, width, height)
                            && InBounds(ParseCoord(exitText).value, width, height)
                            && ParseCoord(entryText).value != ParseCoord(exitText).value
    ensures r.Success? ==> r.value == (ParseCoord(entryText).value, ParseCoord(exitText).value)
    ensures r.Failure? ==> !r.error.MissingKeys?
    ensures ParseCoord(entryText).Failure? ==> r == Failure(ParseCoord(entryText).error)
    ensures ParseCoord(entryText).Success? && ParseCoord(exitText).Failure? ==> r == Failure(ParseCoord(exitText).error)
    ensures && ParseCoord(entryText).Success? && ParseCoord(exitText).Success?
            && !InBounds(ParseCoord(entryText).value, width, height)
            ==> r == Failure(EntryOutOfBounds(ParseCoord(entryText).value, width, height))
    ensures && ParseCoord(entryText).Success? && ParseCoord(exitText).Success?
            && InBounds(ParseCoord(entryText).value, width, height)
            && !InBounds(ParseCoord(exitText).value, width, height)
            ==> r == Failure(ExitOutOfBounds(ParseCoord(exitText).value, width, height))
    ensures && ParseCoord(entryText).Success? && ParseCoord(exitText).Success?
            && InBounds(ParseCoord(entryText).value, width, height)
            && InBounds(ParseCoord(exitText).value, width, height)
            && ParseCoord(entryText).value == ParseCoord(exitText).value
            ==> r == Failure(SameEndpoints)
  {
    var entry :- ParseCoord(entryText);
    var exit :- ParseCoord(exitText);
    if !InBounds(entry, width, height) then Failure(EntryOutOfBounds(entry, width, height))
    else if !InBounds(exit, width, height) then Failure(ExitOutOfBounds(exit, width, height))
    else if entry == exit then Failure(SameEndpoints)
    else Success((entry, exit))
  }

  /** SEED: absent or blank means none; otherwise it must be an integer. */
  function ParseSeed(data: map<string, string>): (r: Result<Option<int>, ConfigError>)
    ensures r == Success(None) <==> "SEED" !in data || Strip(data["SEED"]) == []
    ensures r.Success? && r.value.Some? ==> "SEED" in data && ParseInt(data["SEED"]) == Some(r.value.value)
    ensures r.Failure? ==> r.error == SeedNotInteger && "SEED" in data && ParseInt(data["SEED"]).None?
  {
    if "SEED" in data && Strip(data["SEED"]) != [] then
      match ParseInt(data["SEED"])
      case None => Failure(SeedNotInteger)
      case Some(s) => Success(Some(s))
    else Success(None)
  }

  /** OUTPUT_FILE, PERFECT and SEED, once the dimensions and endpoints are accepted. */
  function ValidateRest(data: map<string, string>, width: int, height: int, entry: Coord, exit: Coord)
    : (r: Result<Config, ConfigError>)
    requires HasRequired(data)
    ensures r.Failure? ==> r.error.EmptyOutputFile? || r.error.InvalidBoolean? || r.error.SeedNotInteger?
    ensures Strip(data["OUTPUT_FILE"]) == [] ==> r == Failure(EmptyOutputFile)
    ensures Strip(data["OUTPUT_FILE"]) != [] && ParseBool(data["PERFECT"]).Failure? ==>
              r == Failure(InvalidBoolean(data["PERFECT"]))
    ensures Strip(data["OUTPUT_FILE"]) != [] && ParseBool(data["PERFECT"]).Success? && ParseSeed(data).Failure? ==>
              r == Failure(SeedNotInteger)
    ensures r.Success? ==> && r.value.width == width && r.value.height == height
                           && r.value.entry == entry && r.value.exit == exit
                           && r.value.outputFile == Strip(data["OUTPUT_FILE"]) && r.value.outputFile != []
                           && ParseBool(data["PERFECT"]) == Success(r.value.perfect)
                           && ParseSeed(data) == Success(r.value.seed)
    ensures Strip(data["OUTPUT_FILE"]) != [] && ParseBool(data["PERFECT"]).Success? && ParseSeed(data).Success? ==>
              r == Success(Config(width, height, entry, exit, Strip(data["OUTPUT_FILE"]),
                                  ParseBool(data["PERFECT"]).value, ParseSeed(data).value))
  {
    var outputFile := Strip(data["OUTPUT_FILE"]);
    if outputFile == [] then Failure(EmptyOutputFile)
    else
      match ParseBool(data["PERFECT"])
      case Failure(e) => Failure(e)
      case Success(perfect) =>
        match ParseSeed(data)
        case Failure(e) => Failure(e)
        case Success(seed) => Success(Config(width, height, entry, exit, outputFile, perfect, seed))
  }

  /** ENTRY and EXIT against the accepted dimensions, then the rest. */
  function ValidateEndpoints(data: map<string, string>, width: int, height: int): (r: Result<Config, ConfigError>)
    requires HasRequired(data)
    ensures r.Failure? ==> !r.error.MissingKeys?
    ensures ParseEndpoints(data["ENTRY"], data["EXIT"], width, height).Failure? ==>
              r == Failure(ParseEndpoints(data["ENTRY"], data["EXIT"], width, height).error)
    ensures ParseEndpoints(data["ENTRY"], data["EXIT"], width, height).Success? ==>
              var ends := ParseEndpoints(data["ENTRY"], data["EXIT"], width, height).value;
              r == ValidateRest(data, width, height, ends.0, ends.1)
    ensures r.Success? ==> && r.value.width == width && r.value.height == height
                           && ParseEndpoints(data["ENTRY"], data["EXIT"], width, height)
                              == Success((r.value.entry, r.value.exit))
  {
    match ParseEndpoints(data["ENTRY"], data["EXIT"], width, height)
    case Failure(e) => Failure(e)
    case Success(ends) => ValidateRest(data, width, height, ends.0, ends.1)
  }

  /** The checks after the required keys are known to be present, in the source's order. */
  function ValidateValues(data: map<string, string>): (r: Result<Config, ConfigError>)
    requires HasRequired(data)
    ensures r.Failure? ==> !r.error.MissingKeys?
    ensures ParseDimensions(data["WIDTH"], data["HEIGHT"]).Failure? ==>
              r == Failure(ParseDimensions(data["WIDTH"], data["HEIGHT"]).error)
    ensures ParseDimensions(data["WIDTH"], data["HEIGHT"]).Success? ==>
              var dims := ParseDimensions(data["WIDTH"], data["HEIGHT"]).value;
              r == ValidateEndpoints(data, dims.0, dims.1)
    ensures r.Success? ==> && ParseDimensions(data["WIDTH"], data["HEIGHT"]) == Success((r.value.width, r.value.height))
                           && ParseEndpoints(data["ENTRY"], data["EXIT"], r.value.width, r.value.height)
                              == Success((r.value.entry, r.value.exit))
  {
    match ParseDimensions(data["WIDTH"], data["HEIGHT"])
    case Failure(e) => Failure(e)
    case Success(dims) => ValidateEndpoints(data, dims.0, dims.1)
  }

  /** The validation half of load_config: missing keys first, then the values. */
  function Validate(data: map<string, string>): (r: Result<Config, ConfigError>)
    ensures !HasRequired(data) <==> r.Failure? && r.error.MissingKeys?
    ensures r.Failure? && r.error.MissingKeys? ==> r.error.keys == Missing(REQUIRED_KEYS, data) && r.error.keys != []
    ensures HasRequired(data) ==> r == ValidateValues(data)
  {
    var missing := Missing(REQUIRED_KEYS, data);
    NothingMissing(data);
    if missing != [] then Failure(MissingKeys(missing)) else ValidateValues(data)
  }

  /** An accepted configuration has positive dimensions and distinct endpoints inside the grid, as the Maze constructor demands. */
  lemma ValidateAcceptsMaze(data: map<string, string>)
    requires Validate(data).Success?
    ensures var c := Validate(data).value;
            && HasRequired(data)
            && ParseInt(data["WIDTH"]) == Some(c.width) && ParseInt(data["HEIGHT"]) == Some(c.height)
            && ParseCoord(data["ENTRY"]) == Success(c.entry) && ParseCoord(data["EXIT"]) == Success(c.exit)
            && ValidateMazeArgs(c.height, c.width, c.entry, c.exit) == Pass
  {
    var c := Validate(data).value;
    assert HasRequired(data);
    assert ParseDimensions(data["WIDTH"], data["HEIGHT"]) == Success((c.width, c.height));
    assert ParseEndpoints(data["ENTRY"], data["EXIT"], c.width, c.height) == Success((c.entry, c.exit));
  }

  /** The remaining fields of an accepted configuration: the stripped output name, the PERFECT flag and the seed. */
  lemma ValidateFields(data: map<string, string>)
    requires Validate(data).Success?
    ensures var c := Validate(data).value;
            && HasRequired(data)
            && c.outputFile == Strip(data["OUTPUT_FILE"]) && c.outputFile != []
            && ParseBool(data["PERFECT"]) == Success(c.perfect)
            && ParseSeed(data) == Success(c.seed)
  {
    var dims := ParseDimensions(data["WIDTH"], data["HEIGHT"]).value;
    var ends := ParseEndpoints(data["ENTRY"], data["EXIT"], dims.0, dims.1).value;
    assert Validate(data) == ValidateRest(data, dims.0, dims.1, ends.0, ends.1);
  }

  /** load_config on the file's lines: any bad line is an error, and an accepted configuration is one the Maze constructor takes. */
  function Load(lines: seq<string>): (r: Result<Config, ConfigError>)
    ensures (exists i :: 0 <= i < |lines| && ParseLine(lines[i]).Bad?) ==> r.Failure?
    ensures r.Success? ==> ValidateMazeArgs(r.value.height, r.value.width, r.value.entry, r.value.exit) == Pass
  {
    CollectFailure(Parsed(lines));
    match Collect(Parsed(lines))
    case Failure(e) => Failure(e)
    case Success(data) =>
      var v := Validate(data);
      if v.Success? then (ValidateAcceptsMaze(data); v) else v
  }

  /** load_config: collect the lines, then validate the dictionary. */
  method LoadConfig(lines: seq<string>) returns (r: Result<Config, ConfigError>)
    ensures r == Load(lines)
  {
    var data := ReadLines(lines);
    if data.Failure? {
      return Failure(data.error);
    }
    return Validate(data.value);
  }
}
