/** Selecting the served path: field number `i` of a comma-separated, NUL-terminated property value. */
module PathField {
  import opened Commands

  const COMMA: char := ','

  /** The fields of a comma-separated string; there is always at least one. */
  function Fields(s: string): (fs: seq<string>)
    ensures fs != []
  {
    if s == "" then [""]
    else if s[0] == COMMA then [""] + Fields(s[1..])
    else
      var rest := Fields(s[1..]);
      [[s[0]] + rest[0]] + rest[1..]
  }

  function JoinFields(fs: seq<string>): string
    requires fs != []
  {
    if |fs| == 1 then fs[0] else fs[0] + [COMMA] + JoinFields(fs[1..])
  }

  lemma {:induction false} FirstField(f: string, rest: string)
    requires COMMA !in f
    ensures Fields(f) == [f]
    ensures Fields(f + [COMMA] + rest) == [f] + Fields(rest)
  {
    var all := f + [COMMA] + rest;
    if f == "" {
      assert all[1..] == rest;
    } else {
      FirstField(f[1..], rest);
      assert all[1..] == f[1..] + [COMMA] + rest;
      assert [f[0]] + f[1..] == f;
    }
  }

  /** Field round trip: splitting undoes joining, for every list of comma-free fields. */
  lemma {:induction false} FieldsOfJoined(fs: seq<string>)
    requires fs != [] && forall i :: 0 <= i < |fs| ==> COMMA !in fs[i]
    ensures Fields(JoinFields(fs)) == fs
  {
    if |fs| == 1 {
      FirstField(fs[0], "");
    } else {
      FieldsOfJoined(fs[1..]);
      FirstField(fs[0], JoinFields(fs[1..]));
    }
  }

  /** index(3): the first `c` at or after `from`, or -1. */
  method Index(buf: array<char>, from: nat, c: char, ghost s: string) returns (k: int)
    requires from <= |s| < buf.Length && buf[..|s|] == s && buf[|s|] == NUL && CStr(s) && c != NUL
    ensures k == -1 || from <= k < |s|
    ensures k == -1 ==> c !in s[from..]
    ensures k >= 0 ==> s[k] == c && c !in s[from..k]
  {
    k := from;
    while buf[k] != c && buf[k] != NUL
      invariant from <= k <= |s| && c !in s[from..k]
      decreases |s| - k
    {
      assert k < |s| && buf[k] == buf[..|s|][k];
      k := k + 1;
    }
    assert k < |s| ==> buf[k] == buf[..|s|][k];
    if buf[k] != c {
      k := -1;
    }
  }

  lemma SplitHere(s: string, from: nat, k: int)
    requires from <= |s| && (k == -1 || from <= k < |s|)
    requires if k == -1 then COMMA !in s[from..] else s[k] == COMMA && COMMA !in s[from..k]
    ensures k == -1 ==> Fields(s[from..]) == [s[from..]]
    ensures k >= 0 ==> Fields(s[from..]) == [s[from..k]] + Fields(s[k + 1..])
  {
    if k == -1 {
      FirstField(s[from..], "");
    } else {
      assert s[from..] == s[from..k] + [COMMA] + s[k + 1..];
      FirstField(s[from..k], s[k + 1..]);
    }
  }

  /** Copies field number `pathIndex` of the value into `path`: succeeds exactly when that field exists, is
      not empty and is shorter than the buffer, and then the buffer holds exactly that field. */
  method GetPath(value: array<char>, ghost s: string, path: array<char>, pathIndex: nat) returns (ret: int)
    requires |s| < value.Length && value[..|s|] == s && value[|s|] == NUL && CStr(s) && path.Length > 0
    requires value != path
    modifies value, path
    ensures ret == 0 || ret == -1
    ensures ret == 0 <==> pathIndex < |Fields(s)| && 0 < |Fields(s)[pathIndex]| < path.Length
    ensures ret == 0 ==> HoldsAt(path[..], 0, Fields(s)[pathIndex])
    ensures ret != 0 ==> path[..] == old(path[..])
  {
    hide Fields;
    ret := -1;
    ghost var fs := Fields(s);
    var ptr, i := 0, pathIndex;
    assert s[0..] == s;
    while i > 0
      invariant 0 <= i <= pathIndex && ptr <= |s| && pathIndex - i < |fs| && Fields(s[ptr..]) == fs[pathIndex - i..]
      invariant value[..|s|] == s && |s| < value.Length && value[|s|] == NUL && path[..] == old(path[..])
    {
      var k := Index(value, ptr, COMMA, s);
      SplitHere(s, ptr, k);
      if k < 0 {
        return;
      }
      assert fs[pathIndex - i + 1..] == fs[pathIndex - i..][1..];
      ptr, i := k + 1, i - 1;
    }
    var k := Index(value, ptr, COMMA, s);
    SplitHere(s, ptr, k);
    assert fs[pathIndex] == fs[pathIndex..][0];
    ghost var f := fs[pathIndex];
    assert forall i :: 0 <= i < |s| ==> value[i] == value[..|s|][i];
    if k >= 0 {
      value[k] := NUL;
    }
    FieldHere(value[..], s, ptr, k, f);
    var len := StrLen(value, ptr, f);
    if len >= path.Length || len == 0 {
      return;
    }
    StrNCpy(path, value, ptr, len);
    path[path.Length - 1] := NUL;
    assert path[0..0 + |f|] == value[ptr..ptr + |f|] == value[..][ptr..ptr + |f|];
    ret := 0;
  }

  /** Once the comma after it is overwritten, the field is a C string in the value. */
  lemma FieldHere(buf: seq<char>, s: string, ptr: nat, k: int, f: string)
    requires ptr <= |s| < |buf| && CStr(s) && buf[|s|] == NUL && (k == -1 || ptr <= k < |s|)
    requires f == (if k == -1 then s[ptr..] else s[ptr..k])
    requires forall i :: ptr <= i < |s| && i != k ==> buf[i] == s[i]
    requires k >= 0 ==> buf[k] == NUL
    ensures HoldsAt(buf, ptr, f)
  {
    var end := if k == -1 then |s| else k;
    assert buf[ptr..end] == f;
  }

  method StrLen(buf: array<char>, pos: nat, ghost t: string) returns (n: nat)
    requires HoldsAt(buf[..], pos, t)
    ensures n == |t|
  {
    n := 0;
    while buf[pos + n] != NUL
      invariant n <= |t|
      decreases |t| - n
    {
      n := n + 1;
    }
  }

  /** strncpy of `len` characters into a larger buffer, zero-filling the rest. */
  method StrNCpy(dst: array<char>, src: array<char>, pos: nat, len: nat)
    requires dst != src && len < dst.Length && pos + len <= src.Length
    modifies dst
    ensures dst[..len] == src[pos..pos + len] && forall i :: len <= i < dst.Length ==> dst[i] == NUL
  {
    for i := 0 to dst.Length
      invariant forall j :: 0 <= j < i && j < len ==> dst[j] == src[pos + j]
      invariant forall j :: len <= j < i ==> dst[j] == NUL
    {
      dst[i] := if i < len then src[pos + i] else NUL;
    }
  }
}
