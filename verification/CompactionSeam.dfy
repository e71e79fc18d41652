/** The split-point search of the compaction seam. */
module CompactionSeam {
  import opened Messages
  import opened ToolProtocol

  /** Where the search may stop: before a message that is not a result and follows no call. */
  ghost predicate SeamStop(items: seq<Message>, cut: nat)
    requires cut < |items|
  {
    cut == 0 || (!items[cut].ToolResult? && !HasToolCalls(items[cut - 1]))
  }

  /** The greatest stop at or below `cut`. */
  ghost function SeamBack(items: seq<Message>, cut: nat): (r: nat)
    requires cut < |items|
    ensures r <= cut && SeamStop(items, r)
    ensures forall c :: r < c <= cut ==> !SeamStop(items, c)
  {
    if SeamStop(items, cut) then cut else SeamBack(items, cut - 1)
  }

  ghost function SplitPoint(items: seq<Message>, keepRecent: nat): (cut: nat)
    requires keepRecent >= 1 || items == []
    ensures cut <= |items|
  {
    if |items| <= keepRecent then |items| else SeamBack(items, |items| - keepRecent)
  }

  /** The index of the first item to keep. With nothing to keep and a non-empty list the original
      reads one past the end and panics, so that call is excluded. */
  method SelectSplitPoint(items: seq<Message>, keepRecent: nat) returns (cut: nat)
    requires keepRecent >= 1 || items == []
    ensures cut == SplitPoint(items, keepRecent)
  {
    if |items| <= keepRecent {
      return |items|;
    }
    var candidate := |items| - keepRecent;
    cut := candidate;
    while cut > 0
      invariant cut <= candidate
      invariant SeamBack(items, candidate) == SeamBack(items, cut)
    {
      if items[cut].ToolResult? {
        cut := cut - 1;
        continue;
      }
      if HasToolCalls(items[cut - 1]) {
        cut := cut - 1;
        continue;
      }
      break;
    }
  }
}
