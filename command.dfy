/** The flash command of a burn: `execute_burn` writes one line naming each
    firmware image (with the spaces of its path escaped) and `run_command`
    splits it back into the argument vector handed to the flashing tool. */
module FlashCommand {
  import opened Wrappers
  import opened Text
  import opened RecordTable

  /** The fixed options before the images (frmMain.py line 335), word by word. */
  const FlashFlagTokens: seq<string> :=
    ["--chip", "esp32", "--before", "default_reset", "--after", "hard_reset", "write_flash",
     "-z", "--flash_mode", "dio", "--flash_freq", "40m", "--flash_size", "detect"]

  /** The same options as one line, words separated by single spaces. */
  const FlashFlags: string := Join(FlashFlagTokens)

  /** POSIX `os.path.join(a, b)`: an absolute `b` replaces `a`, otherwise a
      slash is put between them unless `a` is empty or ends in one. */
  function JoinPath(a: string, b: string): (r: string)
  {
    if |b| > 0 && b[0] == '/' then b
    else if a == "" || a[|a| - 1] == '/' then a + b
    else a + "/" + b
  }

  /** An absolute second part replaces the first; otherwise the joined path
      ends with the second part. */
  lemma JoinPathEnds(a: string, b: string)
    ensures |b| > 0 && b[0] == '/' ==> JoinPath(a, b) == b
    ensures !(|b| > 0 && b[0] == '/') ==> |JoinPath(a, b)| >= |b| && JoinPath(a, b)[|JoinPath(a, b)| - |b|..] == b
  {
  }

  /** `os.path.join(base_path, 'sw', filename)`. */
  function FirmwarePath(base: string, filename: string): string {
    JoinPath(JoinPath(base, "sw"), filename)
  }

  /** `os.path.join(base_path, 'esptool_py', 'esptool', 'esptool.py')`. */
  function EspToolPath(base: string): string {
    JoinPath(JoinPath(JoinPath(base, "esptool_py"), "esptool"), "esptool.py")
  }

  /** Why the command cannot be built: the record has no column for a
      firmware name (`KeyError`), or its value there is not text
      (`os.path.join` raises `TypeError`). */
  datatype CommandError = NoColumn(name: string) | NotText(name: string)

  /** The image file of one hex-map entry: a shared image is named by the
      entry itself, any other by the record's value in the column the entry
      names (lines 322-326). */
  function FileFor(entry: HexEntry, columns: seq<string>, row: Record): (r: Result<string, CommandError>)
    requires |row| == |columns|
    ensures entry.sw in CommonBins ==> r == Success(entry.sw)
    ensures entry.sw !in CommonBins && entry.sw !in columns ==> r == Failure(NoColumn(entry.sw))
    ensures entry.sw !in CommonBins && ColumnIndex(columns, entry.sw).Some? ==>
      var c := row[ColumnIndex(columns, entry.sw).value];
      r == if c.Str? then Success(c.s) else Failure(NotText(entry.sw))
  {
    if entry.sw in CommonBins then Success(entry.sw)
    else match ColumnIndex(columns, entry.sw)
      case None => Failure(NoColumn(entry.sw))
      case Some(j) =>
        match row[j]
        case Str(s) => Success(s)
        case _ => Failure(NotText(entry.sw))
  }

  /** The (address, image path) pairs of the hex map, in its order, leaving
      out entries whose record names no file; the first failing entry decides
      the error. When it succeeds is stated by `FlashPairsSucceeds`, what it
      yields by `FlashPairsImages`. */
  function FlashPairs(hexMap: seq<HexEntry>, columns: seq<string>, row: Record, base: string)
    : (r: Result<seq<(string, string)>, CommandError>)
    requires |row| == |columns|
    ensures r.Success? ==> |r.value| <= |hexMap|
  {
    if |hexMap| == 0 then Success([])
    else
      var last := hexMap[|hexMap| - 1];
      match FlashPairs(hexMap[..|hexMap| - 1], columns, row, base)
      case Failure(e) => Failure(e)
      case Success(ps) =>
        match FileFor(last, columns, row)
        case Failure(e) => Failure(e)
        case Success(f) => if f != "" then Success(ps + [(last.hex, FirmwarePath(base, f))]) else Success(ps)
  }

  /** The `f'{hex} {sw}'` piece of each pair, with the path escaped. */
  function Pieces(ps: seq<(string, string)>): (r: seq<string>)
    ensures |r| == |ps|
  {
    seq(|ps|, i requires 0 <= i < |ps| => ps[i].0 + " " + Escape(ps[i].1))
  }

  /** The command line of a burn (line 335). */
  function CommandLine(ps: seq<(string, string)>): string {
    FlashFlags + " " + Join(Pieces(ps))
  }

  /** The command-building loop of `execute_burn` (lines 320-335) over the
      selected record. */
  method BuildCommand(hexMap: seq<HexEntry>, columns: seq<string>, row: Record, base: string)
    returns (r: Result<string, CommandError>)
    requires |row| == |columns|
    ensures r.Success? <==> FlashPairs(hexMap, columns, row, base).Success?
    ensures r.Success? ==> r.value == CommandLine(FlashPairs(hexMap, columns, row, base).value)
    ensures r.Failure? ==> r.error == FlashPairs(hexMap, columns, row, base).error
  {
    var sws: seq<string> := [];
    ghost var ps: seq<(string, string)> := [];
    var i := 0;
    while i < |hexMap|
      invariant 0 <= i <= |hexMap|
      invariant FlashPairs(hexMap[..i], columns, row, base) == Success(ps)
      invariant sws == Pieces(ps)
    {
      assert hexMap[..i + 1][..i] == hexMap[..i];
      var entry := hexMap[i];
      var filename: string;
      if entry.sw in CommonBins {
        filename := entry.sw;
      } else {
        var j := ColumnIndex(columns, entry.sw);
        if j.None? {
          assert hexMap[..i + 1][i] == entry;
          FlashPairsPrefixFails(hexMap, columns, row, base, i + 1);
          return Failure(NoColumn(entry.sw));
        }
        if !row[j.value].Str? {
          assert hexMap[..i + 1][i] == entry;
          FlashPairsPrefixFails(hexMap, columns, row, base, i + 1);
          return Failure(NotText(entry.sw));
        }
        filename := row[j.value].s;
      }
      assert hexMap[..i + 1][i] == entry;
      if filename != "" {
        var sw := Escape(FirmwarePath(base, filename));
        sws := sws + [entry.hex + " " + sw];
        ps := ps + [(entry.hex, FirmwarePath(base, filename))];
      }
      i := i + 1;
    }
    assert hexMap[..i] == hexMap;
    return Success(FlashFlags + " " + Join(sws));
  }

  /** Once a prefix of the hex map fails, the whole map fails the same way. */
  lemma {:induction false} FlashPairsPrefixFails(hexMap: seq<HexEntry>, columns: seq<string>, row: Record,
                                                 base: string, n: nat)
    requires |row| == |columns| && n <= |hexMap|
    requires FlashPairs(hexMap[..n], columns, row, base).Failure?
    ensures FlashPairs(hexMap, columns, row, base) == FlashPairs(hexMap[..n], columns, row, base)
    decreases |hexMap| - n
  {
    if n < |hexMap| {
      assert hexMap[..n + 1][..n] == hexMap[..n];
      FlashPairsPrefixFails(hexMap, columns, row, base, n + 1);
    } else {
      assert hexMap[..n] == hexMap;
    }
  }

  /** The pairs of the hex map read front to back, for a record that has a
      file name for every entry: one `(address, path)` per entry with a
      non-empty file name, in the hex map's order. */
  function Images(hexMap: seq<HexEntry>, columns: seq<string>, row: Record, base: string): seq<(string, string)>
    requires |row| == |columns|
    requires forall i :: 0 <= i < |hexMap| ==> FileFor(hexMap[i], columns, row).Success?
  {
    if |hexMap| == 0 then []
    else
      var f := FileFor(hexMap[0], columns, row).value;
      (if f != "" then [(hexMap[0].hex, FirmwarePath(base, f))] else []) + Images(hexMap[1..], columns, row, base)
  }

  lemma {:induction false} ImagesSnoc(hexMap: seq<HexEntry>, x: HexEntry, columns: seq<string>, row: Record, base: string)
    requires |row| == |columns|
    requires forall i :: 0 <= i < |hexMap| ==> FileFor(hexMap[i], columns, row).Success?
    requires FileFor(x, columns, row).Success?
    ensures var f := FileFor(x, columns, row).value;
      Images(hexMap + [x], columns, row, base) ==
      Images(hexMap, columns, row, base) + (if f != "" then [(x.hex, FirmwarePath(base, f))] else [])
    decreases |hexMap|
  {
    if |hexMap| > 0 {
      assert (hexMap + [x])[1..] == hexMap[1..] + [x];
      ImagesSnoc(hexMap[1..], x, columns, row, base);
    }
  }

  /** The command can be built exactly when every hex-map entry has a file
      name. */
  lemma {:induction false} FlashPairsSucceeds(hexMap: seq<HexEntry>, columns: seq<string>, row: Record, base: string)
    requires |row| == |columns|
    ensures FlashPairs(hexMap, columns, row, base).Success? <==>
      forall i :: 0 <= i < |hexMap| ==> FileFor(hexMap[i], columns, row).Success?
    decreases |hexMap|
  {
    if |hexMap| > 0 {
      var init := hexMap[..|hexMap| - 1];
      var last := hexMap[|hexMap| - 1];
      FlashPairsSucceeds(init, columns, row, base);
      if forall i :: 0 <= i < |hexMap| ==> FileFor(hexMap[i], columns, row).Success? {
        forall i | 0 <= i < |init| ensures FileFor(init[i], columns, row).Success? {
          assert init[i] == hexMap[i];
        }
      }
      if FlashPairs(hexMap, columns, row, base).Success? {
        forall i | 0 <= i < |hexMap| ensures FileFor(hexMap[i], columns, row).Success? {
          if i < |init| {
            assert hexMap[i] == init[i];
          }
        }
      }
    }
  }

  /** A command that can be built flashes one image per entry with a
      non-empty file name, in the hex map's order. */
  lemma {:induction false} FlashPairsImages(hexMap: seq<HexEntry>, columns: seq<string>, row: Record, base: string)
    requires |row| == |columns|
    requires FlashPairs(hexMap, columns, row, base).Success?
    ensures forall i :: 0 <= i < |hexMap| ==> FileFor(hexMap[i], columns, row).Success?
    ensures FlashPairs(hexMap, columns, row, base).value == Images(hexMap, columns, row, base)
    decreases |hexMap|
  {
    assert forall i :: 0 <= i < |hexMap| ==> FileFor(hexMap[i], columns, row).Success? by {
      FlashPairsSucceeds(hexMap, columns, row, base);
    }
    if |hexMap| > 0 {
      var init := hexMap[..|hexMap| - 1];
      var last := hexMap[|hexMap| - 1];
      var f := FileFor(last, columns, row).value;
      assert FlashPairs(init, columns, row, base).Success?;
      assert FlashPairs(hexMap, columns, row, base).value ==
             FlashPairs(init, columns, row, base).value + (if f != "" then [(last.hex, FirmwarePath(base, f))] else []);
      FlashPairsImages(init, columns, row, base);
      assert Images(hexMap, columns, row, base) ==
             Images(init, columns, row, base) + (if f != "" then [(last.hex, FirmwarePath(base, f))] else []) by {
        assert init + [last] == hexMap;
        ImagesSnoc(init, last, columns, row, base);
      }
    }
  }

  /** Each token is unescaped (`part.replace('.....', ' ')`). */
  function UnescapeAll(tokens: seq<string>): (r: seq<string>)
    ensures |r| == |tokens|
  {
    seq(|tokens|, i requires 0 <= i < |tokens| => Unescape(tokens[i]))
  }

  /** The fixed head of the argument vector: tool path, baud rate and port. */
  function ArgvHead(espPath: string, port: string): seq<string> {
    [espPath, "--baud", "115200", "--port", port]
  }

  /** The argument vector of `run_command` (lines 283-288). */
  method BuildArgv(base: string, port: string, command: string) returns (argv: seq<string>)
    ensures argv == ArgvHead(EspToolPath(base), port) + UnescapeAll(Split(command))
  {
    argv := ArgvHead(EspToolPath(base), port);
    var parts := Split(command);
    var k := 0;
    while k < |parts|
      invariant 0 <= k <= |parts|
      invariant argv == ArgvHead(EspToolPath(base), port) + UnescapeAll(parts[..k])
    {
      assert parts[..k + 1] == parts[..k] + [parts[k]];
      UnescapeAllAppend(parts[..k], [parts[k]]);
      argv := argv + [Unescape(parts[k])];
      k := k + 1;
    }
    assert parts[..k] == parts;
  }

  /** The addresses and paths of the pairs, in order, as separate tokens. */
  function Flatten(ps: seq<(string, string)>): (r: seq<string>)
    ensures |r| == 2 * |ps|
    ensures forall i :: 0 <= i < |ps| ==> r[2 * i] == ps[i].0 && r[2 * i + 1] == ps[i].1
  {
    if |ps| == 0 then [] else [ps[0].0, ps[0].1] + Flatten(ps[1..])
  }

  /** `Flatten` with every path escaped; `EscapedTokensNoSpace` and
      `UnescapeEscapedTokens` state what it holds. */
  function EscapedTokens(ps: seq<(string, string)>): (r: seq<string>)
    ensures |r| == 2 * |ps|
  {
    if |ps| == 0 then [] else [ps[0].0, Escape(ps[0].1)] + EscapedTokens(ps[1..])
  }

  /** An address that survives the trip through the command line. */
  predicate PlainAddress(hex: string) {
    NoSpace(hex) && !Contains(hex, ".....")
  }

  /** The pieces joined by spaces are the escaped tokens joined by spaces. */
  lemma {:induction false} JoinPieces(ps: seq<(string, string)>)
    requires |ps| >= 1
    ensures Join(Pieces(ps)) == Join(EscapedTokens(ps))
    decreases |ps|
  {
    var h, e := ps[0].0, Escape(ps[0].1);
    var toks := EscapedTokens(ps);
    assert toks[0] == h && toks[1..] == [e] + EscapedTokens(ps[1..]);
    if |ps| == 1 {
      assert Pieces(ps) == [h + " " + e];
      assert EscapedTokens(ps[1..]) == [];
      assert Join(toks[1..]) == e;
    } else {
      JoinPieces(ps[1..]);
      assert Pieces(ps)[1..] == Pieces(ps[1..]);
      assert Join(Pieces(ps)) == (h + " " + e) + " " + Join(Pieces(ps[1..]));
      assert Join(toks[1..]) == e + " " + Join(EscapedTokens(ps[1..]));
    }
  }

  lemma {:induction false} EscapedTokensNoSpace(ps: seq<(string, string)>)
    requires forall k :: 0 <= k < |ps| ==> PlainAddress(ps[k].0)
    ensures forall k :: 0 <= k < |EscapedTokens(ps)| ==> NoSpace(EscapedTokens(ps)[k])
    decreases |ps|
  {
    if |ps| > 0 {
      EscapeNoSpace(ps[0].1);
      EscapedTokensNoSpace(ps[1..]);
      var toks := EscapedTokens(ps);
      forall k | 2 <= k < |toks| ensures NoSpace(toks[k]) {
        assert toks[k] == EscapedTokens(ps[1..])[k - 2];
      }
    }
  }

  lemma {:induction false} UnescapeEscapedTokens(ps: seq<(string, string)>)
    requires forall k :: 0 <= k < |ps| ==> PlainAddress(ps[k].0) && EscapeSafe(ps[k].1)
    ensures UnescapeAll(EscapedTokens(ps)) == Flatten(ps)
    decreases |ps|
  {
    if |ps| > 0 {
      ReplaceAbsent(ps[0].0, ".....", " ");
      EscapeRoundTrip(ps[0].1);
      UnescapeEscapedTokens(ps[1..]);
      var toks := EscapedTokens(ps);
      assert toks[2..] == EscapedTokens(ps[1..]);
      UnescapeAllAppend([ps[0].0, Escape(ps[0].1)], toks[2..]);
      assert toks == [ps[0].0, Escape(ps[0].1)] + toks[2..];
    }
  }

  lemma UnescapeAllAppend(a: seq<string>, b: seq<string>)
    ensures UnescapeAll(a + b) == UnescapeAll(a) + UnescapeAll(b)
  {
  }

  lemma FlagTokensPlain()
    ensures forall k :: 0 <= k < |FlashFlagTokens| ==> NoSpace(FlashFlagTokens[k]) && NoDot(FlashFlagTokens[k])
  {
  }

  /** Plain words in front of a line come out of the split-and-unescape
      unchanged. */
  lemma {:induction false} PlainHead(head: seq<string>, tail: string)
    requires |head| >= 1
    requires forall k :: 0 <= k < |head| ==> NoSpace(head[k]) && NoDot(head[k])
    ensures UnescapeAll(Split(Join(head) + " " + tail)) == head + UnescapeAll(Split(tail))
  {
    SplitJoinPrefix(head, tail);
    UnescapeAllAppend(head, Split(tail));
    forall k | 0 <= k < |head| ensures UnescapeAll(head)[k] == head[k] {
      UnescapeNoDot(head[k]);
    }
  }

  /** The part of the argument vector after the fixed options. */
  lemma ImagesArgv(ps: seq<(string, string)>)
    requires forall k :: 0 <= k < |ps| ==> PlainAddress(ps[k].0) && EscapeSafe(ps[k].1)
    ensures UnescapeAll(Split(Join(Pieces(ps)))) == if |ps| == 0 then [""] else Flatten(ps)
  {
    if |ps| == 0 {
      assert Pieces(ps) == [];
      assert Split(Join(Pieces(ps))) == [""];
      ReplaceAbsent("", ".....", " ");
    } else {
      JoinPieces(ps);
      EscapedTokensNoSpace(ps);
      SplitJoin(EscapedTokens(ps));
      UnescapeEscapedTokens(ps);
    }
  }

  /** The fixed options come first in the argument vector, unchanged. */
  lemma FlagsArgv(ps: seq<(string, string)>)
    ensures UnescapeAll(Split(CommandLine(ps))) == FlashFlagTokens + UnescapeAll(Split(Join(Pieces(ps))))
  {
    FlagTokensPlain();
    PlainHead(FlashFlagTokens, Join(Pieces(ps)));
  }

  /** The argument vector of a burn: the fixed options, then each image's
      address and path exactly as the hex map and the record give them; with
      no image at all, the trailing space of the command line leaves one
      empty argument. */
  lemma FlashArgv(ps: seq<(string, string)>)
    requires forall k :: 0 <= k < |ps| ==> PlainAddress(ps[k].0) && EscapeSafe(ps[k].1)
    ensures UnescapeAll(Split(CommandLine(ps))) ==
      FlashFlagTokens + (if |ps| == 0 then [""] else Flatten(ps))
  {
    FlagsArgv(ps);
    ImagesArgv(ps);
  }
}
