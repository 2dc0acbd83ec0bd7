/** The records that ingestion passes around (ingestion/schemas.py and the rows of utils/incident_index.py). */
module Alerts {
  import opened IsoTime

  datatype Alert = Alert(source: string, severity: string, dedupKey: string, iocs: seq<string>, affectedAssets: seq<string>)

  /** An incident row, as far as correlation reads it. */
  datatype Candidate = Candidate(threadId: string, status: string, updatedAt: Stamp, iocs: seq<string>, affectedAssets: seq<string>)

  /** What a correlation tier returns; the wording of its reason is left out. */
  datatype Correlation = Correlation(threadId: string, matchType: string)

  /** `list(dict.fromkeys(xs))`: first occurrences, in order. */
  function Unique(xs: seq<string>): (r: seq<string>)
    ensures forall x :: x in r <==> x in xs
    ensures forall i, j :: 0 <= i < j < |r| ==> r[i] != r[j]
  {
    if xs == [] then []
    else
      var rest := Unique(xs[..|xs| - 1]);
      var last := xs[|xs| - 1];
      assert forall x :: x in xs <==> x in xs[..|xs| - 1] || x == last;
      if last in rest then rest else rest + [last]
  }

  predicate Share(xs: seq<string>, ys: seq<string>) {
    exists x :: x in xs && x in ys
  }
}
