/** The attachment of a filter, which may refuse data for now. */
module Sinks {
  import opened Bytes

  /** Each call takes the next entry of the script; true means that it blocks, and takes nothing. */
  class Sink {
    var output: seq<byte>
    var ends: nat
    var script: seq<bool>

    constructor (script: seq<bool>)
      ensures output == [] && ends == 0 && this.script == script
    {
      output, ends, this.script := [], 0, script;
    }

    method Put(d: seq<byte>, end: bool) returns (blocked: bool)
      modifies this
      ensures |script| <= |old(script)| && (blocked ==> |script| < |old(script)|)
      ensures blocked ==> output == old(output) && ends == old(ends)
      ensures !blocked ==> output == old(output) + d && ends == old(ends) + if end then 1 else 0
    {
      blocked := script != [] && script[0];
      if script != [] { script := script[1..]; }
      if !blocked {
        output := output + d;
        if end { ends := ends + 1; }
      }
    }
  }
}
