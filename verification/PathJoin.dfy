// Path joining, d4np_path_combine in d4np/io/path.c, with the POSIX separator.
module PathJoin {
  import opened Common

  const SEP := '/'

  predicate IsSep(c: char) {
    c == SEP
  }

  function TrimRight(s: string): (r: string)
    ensures |r| <= |s|
  {
    if s != [] && IsSep(s[|s| - 1]) then TrimRight(s[..|s| - 1]) else s
  }

  function TrimLeft(s: string): (r: string)
    ensures |r| <= |s|
  {
    if s != [] && IsSep(s[0]) then TrimLeft(s[1..]) else s
  }

  // The two segments with one separator between them when both are non-empty.
  function Glue(a: string, b: string): string {
    if a != [] && b != [] then a + [SEP] + b else a + b
  }

  // The ideal join: one root separator is kept when `a` is nothing but separators.
  function Join(a: string, b: string): string {
    if a != [] && TrimRight(a) == [] then [SEP] + TrimLeft(b) else Glue(TrimRight(a), TrimLeft(b))
  }

  // ---- the bounded writer ----------------------------------------------------------------------------

  function Min(a: nat, b: nat): nat { if a <= b then a else b }

  // How much of a text of length `total` has been written to a buffer of `size` bytes.
  function Written(size: nat, total: nat): nat {
    if size == 0 then 0 else Min(total, size - 1)
  }

  // The buffer shows as much of `text` as fits before the terminator: its first `w` bytes.
  predicate Shows(buf: seq<char>, size: nat, text: string, w: nat) {
    w == Written(size, |text|) && w <= |buf| && forall k :: 0 <= k < w ==> buf[k] == text[k]
  }

  // Put `chunk` behind the text shown, counting every character whether or not it fits; nothing
  // behind it changes.
  method Emit(buf: array<char>, size: nat, ghost text: string, w: nat, total: nat, chunk: string, ghost all: string)
    returns (w': nat, total': nat)
    requires size <= buf.Length && Shows(buf[..], size, text, w) && total == |text| && all == text + chunk
    modifies buf
    ensures Shows(buf[..], size, all, w') && total' == |all|
    ensures forall k :: w' <= k < buf.Length ==> buf[k] == old(buf[k])
  {
    w', total' := w, total;
    var i := 0;
    while i < |chunk|
      invariant i <= |chunk| && total' == |text| + i && w' == Written(size, total') && w' <= buf.Length
      invariant forall k :: 0 <= k < w' ==> buf[k] == all[k]
      invariant forall k :: w' <= k < buf.Length ==> buf[k] == old(buf[k])
    {
      if w' + 1 < size {
        buf[w'] := chunk[i];
        w' := w' + 1;
      }
      total' := total' + 1;
      i := i + 1;
    }
  }

  method TrimmedLength(s: string) returns (n: nat)
    ensures n <= |s| && s[..n] == TrimRight(s)
  {
    n := |s|;
    assert s[..n] == s;
    while n > 0 && IsSep(s[n - 1])
      invariant n <= |s| && TrimRight(s[..n]) == TrimRight(s)
    {
      assert s[..n][..n - 1] == s[..n - 1];
      n := n - 1;
    }
  }

  method TrimmedStart(s: string) returns (n: nat)
    ensures n <= |s| && s[n..] == TrimLeft(s)
  {
    n := 0;
    assert s[n..] == s;
    while n < |s| && IsSep(s[n])
      invariant n <= |s| && TrimLeft(s[n..]) == TrimLeft(s)
    {
      assert s[n..][1..] == s[n + 1..];
      n := n + 1;
    }
  }

  method EmitRoot(out: array<char>, size: nat, b: string) returns (w: nat, total: nat)
    requires size <= out.Length
    modifies out
    ensures Shows(out[..], size, [SEP] + b, w) && total == |[SEP] + b|
    ensures forall k :: w <= k < out.Length ==> out[k] == old(out[k])
  {
    w, total := Emit(out, size, [], 0, 0, [SEP], [SEP]);
    w, total := Emit(out, size, [SEP], w, total, b, [SEP] + b);
  }

  method EmitGlue(out: array<char>, size: nat, a: string, b: string) returns (w: nat, total: nat)
    requires size <= out.Length
    modifies out
    ensures Shows(out[..], size, Glue(a, b), w) && total == |Glue(a, b)|
    ensures forall k :: w <= k < out.Length ==> out[k] == old(out[k])
  {
    w, total := Emit(out, size, [], 0, 0, a, a);
    if |a| > 0 && |b| > 0 {
      w, total := Emit(out, size, a, w, total, [SEP], a + [SEP]);
      w, total := Emit(out, size, a + [SEP], w, total, b, Glue(a, b));
    } else {
      w, total := Emit(out, size, a, w, total, b, Glue(a, b));
    }
  }

  // The emitting part: everything but the terminator.
  method EmitJoin(out: array<char>, size: nat, left: string, right: string) returns (w: nat, total: nat)
    requires size <= out.Length
    modifies out
    ensures total == |Join(left, right)| && Shows(out[..], size, Join(left, right), w)
    ensures forall k :: w <= k < out.Length ==> out[k] == old(out[k])
  {
    var alen := TrimmedLength(left);
    var bstart := TrimmedStart(right);
    if |left| > 0 && alen == 0 {
      w, total := EmitRoot(out, size, right[bstart..]);
    } else {
      w, total := EmitGlue(out, size, left[..alen], right[bstart..]);
    }
  }

  // `out` is a buffer of `size` bytes; a NULL buffer is one of size 0, and a NULL segment is an empty
  // one.  The result is the full length of the join; the buffer receives its longest prefix that fits,
  // NUL-terminated, and a C reader of the buffer sees exactly that prefix.
  method Combine(out: array<char>, size: nat, a: Option<string>, b: Option<string>) returns (total: nat)
    requires size <= out.Length
    modifies out
    ensures var ideal := Join(if a.Some? then a.value else "", if b.Some? then b.value else "");
            var w := if size == 0 then 0 else Min(total, size - 1);
            && total == |ideal|
            && (size > 0 ==> out[..w] == ideal[..w] && out[w] == '\0' && out[w + 1..] == old(out[w + 1..]))
            && (size > 0 && NulFree(a) && NulFree(b) ==> CString(out[..]) == ideal[..w])
            && (size == 0 ==> out[..] == old(out[..]))
  {
    var left := if a.Some? then a.value else "";
    var right := if b.Some? then b.value else "";
    var w;
    w, total := EmitJoin(out, size, left, right);
    if size > 0 {
      out[w] := '\0';
      JoinReadsBack(left, right, w, out[..]);
    }
  }

  predicate NulFree(s: Option<string>) {
    s.Some? ==> '\0' !in s.value
  }

  // What a C reader sees in a buffer: the bytes before the first NUL.
  function CString(s: string): string {
    if s == [] || s[0] == '\0' then [] else [s[0]] + CString(s[1..])
  }

  // Joining NUL-free segments, the buffer reads back as exactly the prefix that was written.
  lemma {:induction false} ReadsBack(text: string, tail: string)
    requires '\0' !in text
    ensures CString(text + ['\0'] + tail) == text
  {
    var s := text + ['\0'] + tail;
    if text == [] {
    } else {
      ReadsBack(text[1..], tail);
      assert s[1..] == text[1..] + ['\0'] + tail;
    }
  }

  lemma JoinNulFree(a: string, b: string)
    requires '\0' !in a && '\0' !in b
    ensures '\0' !in Join(a, b)
  {
    TrimKeepsOut(a, '\0');
    TrimKeepsOut(b, '\0');
  }

  // A buffer that holds a prefix of a NUL-free join and its terminator reads back as that prefix.
  lemma JoinReadsBack(a: string, b: string, w: nat, buf: string)
    requires w <= |Join(a, b)| && w < |buf| && buf[..w] == Join(a, b)[..w] && buf[w] == '\0'
    ensures '\0' !in a && '\0' !in b ==> CString(buf) == Join(a, b)[..w]
  {
    if '\0' !in a && '\0' !in b {
      JoinNulFree(a, b);
      ReadsBack(buf[..w], buf[w + 1..]);
      assert buf == buf[..w] + ['\0'] + buf[w + 1..];
    }
  }

  lemma {:induction false} TrimKeepsOut(s: string, c: char)
    requires c !in s
    ensures c !in TrimRight(s) && c !in TrimLeft(s)
    decreases |s|
  {
    if s == [] {
    } else {
      TrimKeepsOut(s[..|s| - 1], c);
      TrimKeepsOut(s[1..], c);
    }
  }

  // ---- where the separator stands ----------------------------------------------------------------------

  predicate OnlySlashes(s: string) {
    forall k :: 0 <= k < |s| ==> s[k] == '/'
  }

  lemma {:induction false} TrimRightIs(x: string, s: string)
    requires OnlySlashes(s) && (x == [] || x[|x| - 1] != '/')
    ensures TrimRight(x + s) == x
    decreases |s|
  {
    if s == [] {
      assert x + s == x;
    } else {
      TrimRightIs(x, s[..|s| - 1]);
      assert (x + s)[..|x + s| - 1] == x + s[..|s| - 1];
    }
  }

  lemma {:induction false} TrimLeftIs(s: string, x: string)
    requires OnlySlashes(s) && (x == [] || x[0] != '/')
    ensures TrimLeft(s + x) == x
    decreases |s|
  {
    if s == [] {
      assert s + x == x;
    } else {
      TrimLeftIs(s[1..], x);
      assert (s + x)[1..] == s[1..] + x;
    }
  }

  // Every pair of segments, cut at the seam: `a` and `b` touch no separator there, `s` and `r` are the
  // separators between them.  Exactly one separator joins two non-empty texts; an empty one adds
  // none, except that a left segment of nothing but separators is the root and keeps one.
  lemma JoinAtSeam(a: string, s: string, r: string, b: string)
    requires OnlySlashes(s) && OnlySlashes(r) && (a == [] || a[|a| - 1] != '/') && (b == [] || b[0] != '/')
    ensures Join(a + s, r + b) ==
            if a == [] && s != [] then "/" + b
            else if a == [] then b
            else if b == [] then a
            else a + "/" + b
  {
    TrimRightIs(a, s);
    TrimLeftIs(r, b);
    GlueEmpty(a);
    GlueEmpty(b);
  }

  // ---- associativity -------------------------------------------------------------------------------------

  lemma {:induction false} TrimRightAppend(x: string, y: string)
    ensures TrimRight(x + y) == if TrimRight(y) == [] then TrimRight(x) else x + TrimRight(y)
    decreases |y|
  {
    if y == [] {
      assert x + y == x;
    } else if IsSep(y[|y| - 1]) {
      TrimRightAppend(x, y[..|y| - 1]);
      assert (x + y)[..|x + y| - 1] == x + y[..|y| - 1];
    }
  }

  lemma {:induction false} TrimLeftAppend(x: string, y: string)
    ensures TrimLeft(x + y) == if TrimLeft(x) == [] then TrimLeft(y) else TrimLeft(x) + y
    decreases |x|
  {
    if x == [] {
      assert x + y == y;
    } else if IsSep(x[0]) {
      TrimLeftAppend(x[1..], y);
      assert (x + y)[1..] == x[1..] + y;
    }
  }

  // Trimming one side leaves nothing exactly when trimming the other does.
  lemma {:induction false} OnlySeparators(s: string)
    ensures TrimLeft(s) == [] <==> TrimRight(s) == []
    decreases |s|
  {
    if s == [] {
    } else {
      var n := |s| - 1;
      assert s == s[..n] + [s[n]];
      OnlySeparators(s[..n]);
      TrimLeftAppend(s[..n], [s[n]]);
      assert [s[n]][1..] == [];
    }
  }

  // The core of a segment: trimmed on both sides, in either order.
  lemma {:induction false} TrimsCommute(s: string)
    ensures TrimRight(TrimLeft(s)) == TrimLeft(TrimRight(s))
    decreases |s|
  {
    if s == [] {
    } else {
      var n, c := |s| - 1, s[|s| - 1];
      assert s == s[..n] + [c];
      TrimLeftAppend(s[..n], [c]);
      TrimRightAppend(TrimLeft(s[..n]), [c]);
      TrimsCommute(s[..n]);
      OnlySeparators(s[..n]);
      assert [c][..0] == [] && [c][1..] == [];
    }
  }

  lemma {:induction false} TrimRightIdempotent(s: string)
    ensures TrimRight(TrimRight(s)) == TrimRight(s)
    decreases |s|
  {
    if s == [] || !IsSep(s[|s| - 1]) {
    } else {
      TrimRightIdempotent(s[..|s| - 1]);
    }
  }

  lemma {:induction false} TrimLeftIdempotent(s: string)
    ensures TrimLeft(TrimLeft(s)) == TrimLeft(s)
    decreases |s|
  {
    if s == [] || !IsSep(s[0]) {
    } else {
      TrimLeftIdempotent(s[1..]);
    }
  }

  // A lone separator disappears when trimmed.
  lemma TrimRoot(r: string)
    ensures TrimLeft([SEP] + r) == TrimLeft(r)
    ensures TrimRight([SEP] + r) == if TrimRight(r) == [] then [] else [SEP] + TrimRight(r)
  {
    assert ([SEP] + r)[1..] == r;
    assert [SEP][..0] == [];
    TrimRightAppend([SEP], r);
  }

  lemma TrimGlueLeft(l: string, r: string)
    requires TrimLeft(l) != [] && TrimLeft(r) == r
    ensures TrimLeft(Glue(l, r)) == Glue(TrimLeft(l), r)
  {
    TrimLeftAppend(l, [SEP]);
    TrimLeftAppend(l + [SEP], r);
    TrimLeftAppend(l, r);
  }

  lemma TrimGlueRight(l: string, r: string)
    requires TrimRight(r) != []
    ensures TrimRight(Glue(l, r)) == Glue(l, TrimRight(r))
  {
    TrimRightAppend(l + [SEP], r);
    TrimRightAppend(l, r);
  }

  lemma GlueEmpty(x: string)
    ensures Glue([], x) == x && Glue(x, []) == x
  {
    assert [] + x == x && x + [] == x;
  }

  // Leading separators of the right segment do not matter.
  lemma JoinLeft(b: string, c: string)
    ensures TrimLeft(Join(b, c)) == Glue(TrimLeft(TrimRight(b)), TrimLeft(c))
  {
    var l, r := TrimRight(b), TrimLeft(c);
    TrimLeftIdempotent(c);
    GlueEmpty(r);
    if l == [] {
      TrimRoot(r);
    } else {
      TrimRightIdempotent(b);
      OnlySeparators(l);
      TrimGlueLeft(l, r);
    }
  }

  // Trailing separators of the left segment matter only for recognising the root.
  lemma JoinRight(a: string, b: string)
    ensures TrimRight(Join(a, b)) ==
            if TrimLeft(b) == [] then TrimRight(a)
            else if a != [] && TrimRight(a) == [] then [SEP] + TrimRight(TrimLeft(b))
            else Glue(TrimRight(a), TrimRight(TrimLeft(b)))
  {
    var l, r := TrimRight(a), TrimLeft(b);
    TrimRightIdempotent(a);
    TrimLeftIdempotent(b);
    OnlySeparators(r);
    GlueEmpty(l);
    if a != [] && l == [] {
      TrimRoot(r);
    } else if r != [] {
      TrimGlueRight(l, r);
    }
  }

  // Joining is associative, empty and separator-only segments included.
  lemma Associative(a: string, b: string, c: string)
    ensures Join(Join(a, b), c) == Join(a, Join(b, c))
  {
    JoinLeft(b, c);
    JoinRight(a, b);
    TrimsCommute(b);
    OnlySeparators(TrimLeft(b));
    TrimLeftIdempotent(b);
    var x, core, r := Join(a, b), TrimRight(TrimLeft(b)), TrimLeft(c);
    if core == [] {
      assert TrimLeft(b) == [];
      assert TrimLeft(Join(b, c)) == r;
      assert TrimRight(x) == TrimRight(a);
    } else {
      assert TrimRight(x) != [] && Join(x, c) == Glue(TrimRight(x), r);
      GlueAssociative(TrimRight(a), core, r);
      RootGlue(core, r);
    }
  }

  lemma RootGlue(y: string, z: string)
    requires y != []
    ensures Glue([SEP] + y, z) == [SEP] + Glue(y, z)
  {
    if z != [] {
      assert [SEP] + y + [SEP] + z == [SEP] + (y + [SEP] + z);
    } else {
      assert [SEP] + y + z == [SEP] + (y + z);
    }
  }

  lemma GlueAssociative(x: string, y: string, z: string)
    ensures Glue(Glue(x, y), z) == Glue(x, Glue(y, z))
  {
    if x == [] || y == [] || z == [] {
      assert x + y == if y == [] then x else if x == [] then y else x + y;
      assert y + z == if z == [] then y else if y == [] then z else y + z;
    } else {
      assert (x + [SEP] + y) + [SEP] + z == x + [SEP] + (y + [SEP] + z);
    }
  }
}
