/** What Record::Seek and Record::Next look for (Record.cpp:229-486): the
    first frame from the cursor on whose RecName is the record's type name and
    whose scan buffer satisfies the predicate chain. A frame whose chain
    throws ends the scan there. */
module Scanning {
  import opened Bytes
  import opened Optional
  import opened Framing
  import opened Predicates

  datatype ScanResult =
    | Hit(at: nat)                  // the chain is TRUE on the frame at `at`
    | Miss                          // end of file
    | Threw(at: nat, st: State)     // a term threw on the frame at `at`

  /** Every frame of type `name` from `p` on has a scan buffer the chain's
      terms can read. */
  predicate ChainFitsFrames(file: seq<byte>, p: nat, name: Name, chain: seq<Term>)
    requires TiledFrom(file, p)
  {
    forall q :: q in Frames(file, p) && NameAt(file, q) == name ==> ChainFits(chain, ScanBuffer(file, q))
  }

  /** The frame at `q` is of type `name` and the chain neither throws on it nor
      ends TRUE: the scan passes over it. */
  predicate PassesOver(file: seq<byte>, q: nat, name: Name, chain: seq<Term>, resolve: Resolver)
    requires IsFrame(file, q)
  {
    NameAt(file, q) != name ||
      (ChainFits(chain, ScanBuffer(file, q)) && Fold(Start, chain, ScanBuffer(file, q), resolve).Done? && !Matches(chain, ScanBuffer(file, q), resolve))
  }

  function FindMatch(file: seq<byte>, p: nat, name: Name, chain: seq<Term>, resolve: Resolver): (r: ScanResult)
    requires TiledFrom(file, p) && ChainFitsFrames(file, p, name, chain)
    ensures r.Hit? ==> r.at in Frames(file, p) && NameAt(file, r.at) == name && Matches(chain, ScanBuffer(file, r.at), resolve)
    ensures r.Threw? ==> (r.at in Frames(file, p) && NameAt(file, r.at) == name &&
      Fold(Start, chain, ScanBuffer(file, r.at), resolve) == Thrown(r.st))
    ensures r.Hit? || r.Threw? ==> forall q :: q in Frames(file, p) && q < r.at ==> PassesOver(file, q, name, chain, resolve)
    ensures r.Miss? ==> forall q :: q in Frames(file, p) ==> PassesOver(file, q, name, chain, resolve)
    decreases |file| - p
  {
    if p == |file| then Miss
    else
      var e := FrameEnd(file, p);
      assert Frames(file, p) == [p] + Frames(file, e);
      if NameAt(file, p) != name then FindMatch(file, e, name, chain, resolve)
      else
        match Fold(Start, chain, ScanBuffer(file, p), resolve)
        case Thrown(st) => Threw(p, st)
        case Done(st) => if st.last == True then Hit(p) else FindMatch(file, e, name, chain, resolve)
  }

  /** Every frame a chain scan accepts is a frame of the record's type: a scan
      by type name alone (GetRecordByName) finds one no later. */
  lemma MatchIsNamed(file: seq<byte>, p: nat, name: Name, chain: seq<Term>, resolve: Resolver)
    requires TiledFrom(file, p) && ChainFitsFrames(file, p, name, chain)
    requires FindMatch(file, p, name, chain, resolve).Hit?
    ensures FindName(file, p, name).Some?
    ensures FindName(file, p, name).value <= FindMatch(file, p, name, chain, resolve).at
  {
  }

  /** With no terms the chain never ends TRUE: a scan with an empty chain
      matches nothing (Seek and Next therefore hand that case to
      GetRecordByName). */
  lemma EmptyChainNeverMatches(file: seq<byte>, p: nat, name: Name, resolve: Resolver)
    requires TiledFrom(file, p)
    ensures ChainFitsFrames(file, p, name, [])
    ensures FindMatch(file, p, name, [], resolve) == Miss
    decreases |file| - p
  {
    if p < |file| {
      EmptyChainNeverMatches(file, FrameEnd(file, p), name, resolve);
    }
  }
}
