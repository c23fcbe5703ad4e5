/** The extension of a path, as the file-type index and the filter of `process_file_info` take it. */
module Extension {

  import opened Wrappers

  predicate Mark(c: char) {
    c == '.' || c == '/'
  }

  /** Where the backward scan from `i` stops: at a mark, or at the first character at the latest. */
  function LastMark(path: string, i: int): (r: int)
    requires i < |path|
    ensures r <= i && (i >= 0 ==> 0 <= r)
    ensures forall k :: r < k <= i && k > 0 ==> !Mark(path[k])
    ensures r > 0 ==> Mark(path[r])
    decreases i
  {
    if i <= 0 then i else if Mark(path[i]) then i else LastMark(path, i - 1)
  }

  function ExtensionOf(path: string): Option<string> {
    var i := LastMark(path, |path| - 1);
    if i > 0 && i != |path| - 1 && path[i] != '/' && path[i - 1] != '/' then Some(path[i + 1..]) else None
  }

  /** An extension is what follows the last dot, if that is something, if no slash comes after the
      dot, and if the dot does not start the file's name. */
  ghost predicate IsExtension(path: string, e: string) {
    var dot := |path| - |e| - 1;
    && e != "" && dot > 0
    && path[dot] == '.' && path[dot + 1..] == e
    && path[dot - 1] != '/'
    && (forall k :: 0 <= k < |e| ==> !Mark(e[k]))
  }

  lemma ExtensionExact(path: string, e: string)
    ensures ExtensionOf(path) == Some(e) <==> IsExtension(path, e)
  {
    var i := LastMark(path, |path| - 1);
    if IsExtension(path, e) {
      var dot := |path| - |e| - 1;
      forall k | dot < k < |path|
        ensures !Mark(path[k])
      {
        assert path[k] == path[dot + 1..][k - dot - 1];
      }
      assert i == dot;
    }
  }

  /** The scan itself. */
  method FindExtension(path: string) returns (r: Option<string>)
    ensures r == ExtensionOf(path)
  {
    var i := |path| - 1;
    while i > 0
      invariant i <= |path| - 1
      invariant LastMark(path, |path| - 1) == LastMark(path, i)
    {
      if Mark(path[i]) {
        break;
      }
      i := i - 1;
    }
    if i > 0 && i != |path| - 1 && path[i] != '/' && path[i - 1] != '/' {
      r := Some(path[i + 1..]);
    } else {
      r := None;
    }
  }
}
