/** The swappable HTTP object the installer downloads through, with the
    per-URI request counter of the counting stand-in (FakeHttp). */
module Fetcher {
  import opened Resources

  /** How often `uri` was requested; a URI never requested counts 0, as a
      Hash with default value 0 answers. */
  function Count(counts: map<string, nat>, uri: string): (n: nat)
    ensures uri !in counts ==> n == 0
    ensures uri in counts ==> n == counts[uri]
  {
    if uri in counts then counts[uri] else 0
  }

  /** The counter after one more request for `uri`. */
  function Bump(counts: map<string, nat>, uri: string): (r: map<string, nat>)
    ensures Count(r, uri) == Count(counts, uri) + 1
    ensures forall u :: u != uri ==> Count(r, u) == Count(counts, u)
  {
    counts[uri := Count(counts, uri) + 1]
  }

  /** The body the counting stand-in serves for every URI: "Fake File". */
  const FakeFile: Bytes := [70, 97, 107, 101, 32, 70, 105, 108, 101]

  class Http {
    /** What the other end serves for each URI. */
    const respond: string -> Bytes
    /** How many `get` calls each URI string has received. */
    var getCount: map<string, nat>

    /** The counting stand-in: serves "Fake File" for everything. */
    constructor Fake()
      ensures forall u :: respond(u) == FakeFile
      ensures forall u :: Count(getCount, u) == 0
    {
      respond := _ => FakeFile;
      getCount := map[];
    }

    /** A fetcher serving the given content, with its counter at zero. */
    constructor Serving(content: string -> Bytes)
      ensures respond == content
      ensures forall u :: Count(getCount, u) == 0
    {
      respond := content;
      getCount := map[];
    }

    function CountOf(uri: string): nat
      reads this
    {
      Count(getCount, uri)
    }

    method Get(uri: string) returns (body: Bytes)
      modifies this
      ensures body == respond(uri)
      ensures getCount == Bump(old(getCount), uri)
    {
      getCount := Bump(getCount, uri);
      body := respond(uri);
    }
  }
}
