/** Collecting all rows of a paginated tool, and cutting a list into chunks. */
module Pagination {
  import opened Wrappers

  /** One answer: some rows and, if the tool says so, how many rows there are in all. */
  datatype Page<+T> = Page(rows: seq<T>, total: Option<nat>)

  /** The server pages through `all`: from every offset short of the end it returns a non-empty
      contiguous slice no longer than the limit, and nothing from the end on. It reports the
      total always or never. */
  ghost predicate Serves<T(!new)>(server: (nat, nat) -> Page<T>, limit: nat, all: seq<T>, reports: bool) {
    forall offset: nat {:trigger server(limit, offset)} ::
      var p := server(limit, offset);
      && (offset >= |all| ==> p.rows == [])
      && (offset < |all| ==>
            && 0 < |p.rows| <= limit
            && offset + |p.rows| <= |all| && p.rows == all[offset..offset + |p.rows|]
            && p.total == if reports then Some(|all|) else None)
  }

  /** `paginated_tool_rows`: all rows, in order. A server that reports no total is taken to have
      answered everything with its first page. */
  method PaginatedRows<T(!new)>(server: (nat, nat) -> Page<T>, limit: nat, ghost all: seq<T>, ghost reports: bool)
    returns (rows: seq<T>)
    requires limit >= 1 && Serves(server, limit, all, reports)
    ensures rows == if reports then all else server(limit, 0).rows
    ensures rows == all <==> reports || |server(limit, 0).rows| == |all|
  {
    rows := [];
    var offset := 0;
    assert |server(limit, 0).rows| == |all| ==> server(limit, 0).rows == all;
    while true
      invariant offset == |rows| <= |all| && rows == all[..offset]
      invariant !reports ==> offset == 0
      decreases |all| - offset
    {
      var page := server(limit, offset);
      if page.rows == [] {
        assert all[..|all|] == all;
        break;
      }
      rows := rows + page.rows;
      var total := if page.total.Some? then page.total.value else |rows|;
      offset := offset + |page.rows|;
      if offset >= total {
        assert all[..|all|] == all;
        break;
      }
    }
  }

  function Concat<T>(chunks: seq<seq<T>>): seq<T> {
    if chunks == [] then [] else Concat(chunks[..|chunks| - 1]) + chunks[|chunks| - 1]
  }

  /** `chunked`: the chunks concatenate back to the list, none is empty, and all but the last
      are full. */
  method Chunked<T>(items: seq<T>, size: nat) returns (chunks: seq<seq<T>>)
    requires size >= 1
    ensures Concat(chunks) == items
    ensures forall i :: 0 <= i < |chunks| ==> 0 < |chunks[i]| <= size
    ensures forall i :: 0 <= i < |chunks| - 1 ==> |chunks[i]| == size
  {
    chunks := [];
    var index := 0;
    while index < |items|
      invariant Concat(chunks) == items[..if index < |items| then index else |items|]
      invariant forall i :: 0 <= i < |chunks| ==> 0 < |chunks[i]| <= size
      invariant forall i :: 0 <= i < |chunks| ==> |chunks[i]| == size || index >= |items|
      invariant forall i :: 0 <= i < |chunks| - 1 ==> |chunks[i]| == size
      decreases |items| - index
    {
      var end := if index + size < |items| then index + size else |items|;
      var chunk := items[index..end];
      assert (chunks + [chunk])[..|chunks|] == chunks;
      assert items[..end] == items[..index] + chunk;
      chunks := chunks + [chunk];
      index := index + size;
    }
    assert items[..|items|] == items;
  }
}
