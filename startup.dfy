/**
 * The acceptance checks main (main.cc) performs before it starts the
 * simulation: the usage request, the grid and mutation-rate arguments, and the
 * barrier map file.
 *
 * The command-line parser and the file system are outside the model: the
 * parsed arguments and the contents of the map file (None when it cannot be
 * opened) are inputs.
 */
module Startup {
  import opened MapFile

  /** The arguments main inspects. An empty map file name means "no map". */
  datatype Args = Args(help: bool, width: int, height: int, mu: real, mapFile: string)

  /** How main proceeds: print usage, reject the arguments, reject the map, or run with these barriers. */
  datatype Outcome = Usage | Invalid | BadMap | Run(barriers: seq<Pair>)

  /** The status main returns for each early exit; a run returns the application's own status. */
  function ExitStatus(o: Outcome, appStatus: int): (status: int)
    ensures o.Usage? ==> status == 0
    ensures o.Invalid? ==> status == 1
    ensures o.BadMap? ==> status == 2
    ensures o.Run? ==> status == appStatus
  {
    match o
    case Usage => 0
    case Invalid => 1
    case BadMap => 2
    case Run(_) => appStatus
  }

  /** process_map_file on a file: an unreadable file yields the empty list, like a malformed one. */
  function ReadMap(file: Option<string>): seq<Pair>
  {
    match file
    case None => []
    case Some(text) => ProcessMapFile(text)
  }

  /** main's checks, in its order: help first, then the arguments, then the map file. */
  function Start(args: Args, file: Option<string>): (o: Outcome)
    ensures o.Usage? <==> args.help
    ensures o.Invalid? <==> !args.help && (args.width <= 0 || args.height <= 0 || args.mu <= 0.0)
    ensures o.Run? ==> args.width > 0 && args.height > 0 && args.mu > 0.0
    ensures o.Run? ==> (|o.barriers| > 0 <==> |args.mapFile| > 0)
  {
    if args.help then Usage
    else if args.width <= 0 || args.height <= 0 || args.mu <= 0.0 then Invalid
    else if |args.mapFile| > 0 then
      var barriers := ReadMap(file);
      if |barriers| == 0 then BadMap else Run(barriers)
    else Run([])
  }

  /** A map file that was named but yields no barriers stops main with status 2. */
  lemma BadMapStatus(args: Args, file: Option<string>, appStatus: int)
    requires !args.help && args.width > 0 && args.height > 0 && args.mu > 0.0
    requires |args.mapFile| > 0 && ReadMap(file) == []
    ensures Start(args, file) == BadMap && ExitStatus(Start(args, file), appStatus) == 2
  {
  }

  /** A named map file holding only whitespace, or an unreadable one, is rejected with status 2. */
  lemma BlankMapRejected(args: Args, w: string, appStatus: int)
    requires !args.help && args.width > 0 && args.height > 0 && args.mu > 0.0
    requires |args.mapFile| > 0 && AllSpace(w)
    ensures ExitStatus(Start(args, Some(w)), appStatus) == 2
    ensures ExitStatus(Start(args, None), appStatus) == 2
  {
    ProcessSpace(w);
  }

  /** A named map file laid out as well-formed pairs starts the simulation with exactly those barriers. */
  lemma MapAccepted(args: Args, ps: seq<Pair>, sps: seq<Spacing>, trail: string)
    requires !args.help && args.width > 0 && args.height > 0 && args.mu > 0.0
    requires |args.mapFile| > 0 && |ps| > 0 && LayoutOk(ps, sps) && AllSpace(trail)
    ensures Start(args, Some(LayoutThen(ps, sps, trail))) == Run(ps)
  {
    ProcessLayout(ps, sps, trail);
  }

  /** The usage request wins over every other check, whatever the arguments and the map. */
  lemma HelpFirst(args: Args, file: Option<string>, appStatus: int)
    requires args.help
    ensures ExitStatus(Start(args, file), appStatus) == 0
  {
  }
}
