/** Sampling documents page by page with Solr's cursorMark. */
module CursorPaging {
  import opened Prelude
  import opened Sorting

  /** One select response; an entry that is not an object is None. */
  datatype Response<Doc> = Response(docs: seq<Option<Doc>>, nextCursorMark: Option<Text>)

  const START := Text("*")

  /** The cursorMark contract over a result of fixed order: every position has its own mark, a page
      starts at its mark and carries the mark behind its last document. */
  ghost predicate IsCursorServer<Doc(!new)>(select: (Text, nat) -> Response<Doc>, all: seq<Doc>, mark: nat -> Text) {
    && mark(0) == START
    && (forall p: nat, q: nat :: p < q <= |all| ==> mark(p) != mark(q))
    && forall p: nat, rows: nat :: p <= |all| ==> PageAt(select(mark(p), rows), all, p, rows, mark)
  }

  ghost predicate PageAt<Doc(!new)>(r: Response<Doc>, all: seq<Doc>, p: nat, rows: nat, mark: nat -> Text)
    requires p <= |all|
  {
    var end := AtMost(p + rows, |all|);
    && |r.docs| == end - p
    && (forall i :: 0 <= i < end - p ==> r.docs[i] == Some(all[p + i]))
    && r.nextCursorMark == Some(mark(end))
  }

  /** sample_docs_cursormark: whatever the page size, the first sampleN documents of the result. */
  method SampleDocs<Doc(!new)>(
      select: (Text, nat) -> Response<Doc>, ghost all: seq<Doc>, ghost mark: nat -> Text, sampleN: int, batchSize: nat)
    returns (docs: seq<Doc>)
    requires IsCursorServer(select, all, mark)
    ensures batchSize >= 1 ==> docs == all[..if sampleN < 0 then 0 else AtMost(sampleN, |all|)]
    ensures batchSize == 0 ==> docs == []
  {
    docs := [];
    var cursor := START;
    while |docs| < sampleN
      invariant |docs| <= |all| && docs == all[..|docs|] && cursor == mark(|docs|)
      invariant |docs| > 0 ==> |docs| <= sampleN && batchSize > 0
      decreases |all| - |docs|
    {
      var rows := AtMost(batchSize, sampleN - |docs|);
      var resp := select(cursor, rows);
      ghost var p := |docs|;
      assert PageAt(resp, all, p, rows, mark);
      if resp.docs == [] { break; }
      for i := 0 to |resp.docs|
        invariant |docs| == p + i && docs == all[..p + i] && p + i <= |all|
        invariant |docs| < sampleN || i == |resp.docs|
      {
        if resp.docs[i].Some? {
          TakeOneMore(all, p + i);
          docs := docs + [resp.docs[i].value];
          if |docs| >= sampleN { break; }
        }
      }
      if resp.nextCursorMark.None? { break; }
      var prev := cursor;
      cursor := resp.nextCursorMark.value;
      if cursor == prev { break; }
    }
    TakeAll(all);
  }
}
