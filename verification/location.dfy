/**
  The token rule of `get_location` (real_time.py): the helper's standard output is
  stripped and split on whitespace; with at least two tokens, the first two are
  converted to floats and returned as `(lat, lon)`; otherwise, or when anything
  raises, the result is `(None, None)`.

  The process call is an input: `output` is `None` when running the helper raised
  (missing binary, timeout), and `Some(stdout)` otherwise. The conversion `float(...)`
  is the parameter `toCoord`, which returns `None` where Python raises `ValueError`.
  The pair `(None, None)` is modelled as `None`.
 */
module Location {
  import opened Wrappers
  import opened Strings

  function GetLocation<C>(output: Option<string>, toCoord: string -> Option<C>): (r: Option<(C, C)>)
    ensures output.None? ==> r.None?
    ensures output.Some? && |Split(output.value)| < 2 ==> r.None?
    ensures output.Some? && |Split(output.value)| >= 2 ==>
              var toks := Split(output.value);
              r == if toCoord(toks[0]).Some? && toCoord(toks[1]).Some?
                   then Some((toCoord(toks[0]).value, toCoord(toks[1]).value))
                   else None
  {
    match output
    case None => None
    case Some(out) =>
      var parts := Split(Strip(out));
      SplitStrip(out);
      if |parts| >= 2 then
        match toCoord(parts[0])
        case None => None
        case Some(lat) =>
          match toCoord(parts[1])
          case None => None
          case Some(lon) => Some((lat, lon))
      else None
  }

  /** Output of the form `"<lat> <lon>"` (the format the helper is asked for) is read back as that pair. */
  lemma ReadsRequestedFormat<C>(lat: string, lon: string, toCoord: string -> Option<C>)
    requires IsToken(lat) && IsToken(lon)
    requires toCoord(lat).Some? && toCoord(lon).Some?
    ensures GetLocation(Some(lat + " " + lon), toCoord) == Some((toCoord(lat).value, toCoord(lon).value))
  {
    SplitJoin([lat, lon]);
    assert Join([lat, lon], " ") == lat + " " + lon;
  }

  /** Tokens after the second are ignored, as are surrounding blanks. */
  lemma IgnoresExtraTokens<C>(toks: seq<string>, toCoord: string -> Option<C>)
    requires |toks| >= 2
    requires forall i :: 0 <= i < |toks| ==> IsToken(toks[i])
    ensures GetLocation(Some(Join(toks, " ")), toCoord) == GetLocation(Some(Join(toks[..2], " ")), toCoord)
  {
    SplitJoin(toks);
    SplitJoin(toks[..2]);
  }
}
