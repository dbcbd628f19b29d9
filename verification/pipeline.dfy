/**
 * The body of `main`: every source's rows go through `extract_ips` in
 * source order and the results are concatenated; the addresses are then
 * annotated and the lines joined with newlines into the content that is
 * published. A download that fails raises out of `main`, so the run ends
 * without publishing anything.
 */
module Pipeline {
  import opened Wrappers
  import opened Text
  import opened Extract
  import opened Annotate

  /** Outcome of fetching one source: its rows, or None when the download raised. */
  type Download = Option<seq<Row>>

  /**
   * The addresses collected from `downloads` in source order, each source
   * limited separately to `LimitCount`; None when any download failed.
   */
  function Gathered(downloads: seq<Download>): (all: Option<seq<string>>)
  {
    if downloads == [] then Some([])
    else
      var n := |downloads| - 1;
      var previous := Gathered(downloads[..n]);
      if previous.None? || downloads[n].None? then None
      else Some(previous.value + Extracted(downloads[n].value, LimitCount))
  }

  /** The run fails exactly when some download failed. */
  lemma {:induction false} GatheredFails(downloads: seq<Download>)
    ensures Gathered(downloads).None? <==> exists k :: 0 <= k < |downloads| && downloads[k].None?
  {
    if downloads != [] {
      var n := |downloads| - 1;
      var prefix := downloads[..n];
      GatheredFails(prefix);
      if exists k :: 0 <= k < n && prefix[k].None? {
        var k :| 0 <= k < n && prefix[k].None?;
        assert downloads[k].None?;
      }
      if exists k :: 0 <= k < |downloads| && downloads[k].None? {
        var k :| 0 <= k < |downloads| && downloads[k].None?;
        if k < n {
          assert prefix[k].None?;
        }
      }
    }
  }

  /**
   * Every collected address holds three '.' and is the verbatim first field
   * of a non-empty row of some successful download.
   */
  lemma {:induction false} GatheredFields(downloads: seq<Download>)
    requires Gathered(downloads).Some?
    ensures forall x :: x in Gathered(downloads).value ==> CountChar(x, '.') == 3
    ensures forall x :: x in Gathered(downloads).value ==>
              exists k, j :: 0 <= k < |downloads| && downloads[k].Some? && 0 <= j < |downloads[k].value|
                             && |downloads[k].value[j]| > 0 && downloads[k].value[j][0] == x
  {
    if downloads != [] {
      var n := |downloads| - 1;
      var prefix := downloads[..n];
      GatheredFields(prefix);
      var rows := downloads[n].value;
      ExtractedFields(rows, LimitCount);
      var previous, last := Gathered(prefix).value, Extracted(rows, LimitCount);
      assert Gathered(downloads).value == previous + last;
      forall x | x in Gathered(downloads).value
        ensures exists k, j :: 0 <= k < |downloads| && downloads[k].Some? && 0 <= j < |downloads[k].value|
                               && |downloads[k].value[j]| > 0 && downloads[k].value[j][0] == x
      {
        if x in previous {
          var k, j :| 0 <= k < n && prefix[k].Some? && 0 <= j < |prefix[k].value|
                      && |prefix[k].value[j]| > 0 && prefix[k].value[j][0] == x;
          assert downloads[k] == prefix[k];
        } else {
          assert x in last;
          var j :| 0 <= j < |rows| && |rows[j]| > 0 && rows[j][0] == x;
          assert downloads[n].value[j] == rows[j];
        }
      }
    }
  }

  /** Each source adds at most `LimitCount` addresses. */
  lemma {:induction false} GatheredBound(downloads: seq<Download>)
    requires Gathered(downloads).Some?
    ensures |Gathered(downloads).value| <= LimitCount * |downloads|
  {
    if downloads != [] {
      GatheredBound(downloads[..|downloads| - 1]);
    }
  }

  /** A run over two stretches of sources succeeds exactly when a run over each does. */
  lemma {:induction false} GatheredConcatSucceeds(a: seq<Download>, b: seq<Download>)
    ensures Gathered(a + b).Some? <==> Gathered(a).Some? && Gathered(b).Some?
  {
    if b == [] {
      assert a + b == a;
    } else {
      var n := |b| - 1;
      assert (a + b)[..|a + b| - 1] == a + b[..n];
      assert (a + b)[|a + b| - 1] == b[n];
      GatheredConcatSucceeds(a, b[..n]);
    }
  }

  /** Sources contribute in order: a run over `a + b` collects the addresses of `a`, then those of `b`. */
  lemma {:induction false} GatheredConcat(a: seq<Download>, b: seq<Download>)
    requires Gathered(a + b).Some?
    ensures Gathered(a).Some? && Gathered(b).Some?
    ensures Gathered(a + b).value == Gathered(a).value + Gathered(b).value
  {
    GatheredConcatSucceeds(a, b);
    if b == [] {
      assert a + b == a;
    } else {
      var n := |b| - 1;
      var ab := a + b;
      assert ab[..|ab| - 1] == a + b[..n];
      assert ab[|ab| - 1] == b[n];
      GatheredConcatSucceeds(a, b[..n]);
      GatheredConcat(a, b[..n]);
      var last := Extracted(b[n].value, LimitCount);
      assert Gathered(ab).value == Gathered(a + b[..n]).value + last;
      assert Gathered(b).value == Gathered(b[..n]).value + last;
    }
  }

  /**
   * The limit is per source, not overall: when every source has at least
   * `LimitCount` qualifying rows, the run collects `LimitCount` addresses
   * from each, more than `LimitCount` in all once there are two sources.
   */
  lemma {:induction false} GatheredFullSources(downloads: seq<Download>)
    requires forall k :: 0 <= k < |downloads| ==>
               downloads[k].Some? && |QualifyingFields(downloads[k].value)| >= LimitCount
    ensures Gathered(downloads).Some?
    ensures |Gathered(downloads).value| == LimitCount * |downloads|
  {
    if downloads != [] {
      var n := |downloads| - 1;
      var prefix := downloads[..n];
      assert forall k :: 0 <= k < n ==> prefix[k] == downloads[k];
      GatheredFullSources(prefix);
    }
  }

  /** The loop of `main` over the sources, extending the collected list with each source's addresses. */
  method CollectIps(downloads: seq<Download>) returns (all: Option<seq<string>>)
    ensures all == Gathered(downloads)
  {
    var ips: seq<string> := [];
    var i := 0;
    while i < |downloads|
      invariant 0 <= i <= |downloads|
      invariant Gathered(downloads[..i]) == Some(ips)
    {
      assert downloads[..i + 1][..i] == downloads[..i];
      match downloads[i] {
        case None =>
          GatheredFails(downloads);
          return None;
        case Some(rows) =>
          var found := ExtractIps(rows, LimitCount);
          ips := ips + found;
      }
      i := i + 1;
    }
    assert downloads[..i] == downloads;
    all := Some(ips);
  }

  /**
   * A whole run: the content that would be published, or None when a
   * download failed. `lookup(i)` is the geolocation reply for the `i`-th
   * collected address.
   */
  method Run(downloads: seq<Download>, lookup: nat -> LookupReply) returns (content: Option<string>)
    ensures content.None? <==> exists k :: 0 <= k < |downloads| && downloads[k].None?
    ensures content.Some? ==>
              && Gathered(downloads).Some?
              && content.value == Join(AnnotatedLines(Gathered(downloads).value, lookup), '\n')
  {
    var all := CollectIps(downloads);
    GatheredFails(downloads);
    match all
    case None =>
      content := None;
    case Some(ips) =>
      var lines := AnnotateIps(ips, lookup);
      content := Some(Join(lines, '\n'));
  }

  /**
   * The published file has one line per collected address, in order: line
   * `k` is the annotated line of address `k`, and it parses back into that
   * address at its last '#'. No addresses give the empty file.
   */
  lemma PublishedFile(ips: seq<string>, lookup: nat -> LookupReply)
    requires forall k :: 0 <= k < |ips| ==> '\n' !in ips[k]
    requires forall k :: 0 <= k < |ips| && lookup(k).status == StatusOk ==>
               '\n' !in lookup(k).country.GetOr(Unknown) && '#' !in lookup(k).country.GetOr(Unknown)
    ensures |ips| == 0 ==> Join(AnnotatedLines(ips, lookup), '\n') == ""
    ensures |ips| > 0 ==> |Split(Join(AnnotatedLines(ips, lookup), '\n'), '\n')| == |ips|
    ensures |ips| > 0 ==> forall k :: 0 <= k < |ips| ==>
              Split(Join(AnnotatedLines(ips, lookup), '\n'), '\n')[k] == AnnotateLine(ips[k], lookup(k))
    ensures forall k :: 0 <= k < |ips| ==>
              && SplitAtLast(AnnotateLine(ips[k], lookup(k)), '#').Some?
              && SplitAtLast(AnnotateLine(ips[k], lookup(k)), '#').value.0 == ips[k]
  {
    var annotated := AnnotatedLines(ips, lookup);
    forall k | 0 <= k < |ips|
      ensures '\n' !in annotated[k]
      ensures SplitAtLast(AnnotateLine(ips[k], lookup(k)), '#').Some?
      ensures SplitAtLast(AnnotateLine(ips[k], lookup(k)), '#').value.0 == ips[k]
    {
      LineWithoutNewline(ips[k], lookup(k));
      LineRecoversAddress(ips[k], lookup(k));
    }
    if |ips| > 0 {
      SplitJoin(annotated, '\n');
    }
  }
}
