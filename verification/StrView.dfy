// Splitting string views, d4np/str/str_view.c.  A view is an offset and a length into a text, or
// exhausted (NULL pointer); no bytes are copied.
module StrView {
  datatype View = Null | View(start: nat, len: nat)

  predicate Within(text: string, v: View) {
    v.View? ==> v.start + v.len <= |text|
  }

  function Content(text: string, v: View): string
    requires v.View? && Within(text, v)
  {
    text[v.start..v.start + v.len]
  }

  // The first separator, or the length if there is none.
  function IndexOf(s: string, sep: char): (i: nat)
    ensures i <= |s| && forall k :: 0 <= k < i ==> s[k] != sep
    ensures i < |s| ==> s[i] == sep
  {
    if s == [] || s[0] == sep then 0 else 1 + IndexOf(s[1..], sep)
  }

  // The fields between separators; the empty text has one empty field.
  function Fields(s: string, sep: char): (fs: seq<string>)
    ensures |fs| > 0
    decreases |s|
  {
    var i := IndexOf(s, sep);
    if i == |s| then [s] else [s[..i]] + Fields(s[i + 1..], sep)
  }

  // All fields a view still has to yield.
  function Remaining(text: string, v: View, sep: char): seq<string>
    requires Within(text, v)
  {
    if v.Null? then [] else Fields(Content(text, v), sep)
  }

  // One token: the first remaining field, and a view of the others.
  method SplitNext(text: string, sv: View, sep: char) returns (ok: bool, rest: View, token: View)
    requires Within(text, sv)
    ensures ok <==> sv.View?
    ensures ok ==> token.View? && Within(text, token) && Within(text, rest)
    ensures ok ==> Remaining(text, sv, sep) == [Content(text, token)] + Remaining(text, rest, sep)
    ensures ok ==> rest.Null? || rest.len < sv.len
  {
    rest, token := Null, Null;
    if sv.Null? {
      return false, rest, token;
    }
    ghost var s := Content(text, sv);
    var i := 0;
    while i < sv.len
      invariant i <= sv.len && i <= IndexOf(s, sep)
    {
      assert s[i] == text[sv.start + i];
      if text[sv.start + i] == sep {
        assert i == IndexOf(s, sep);
        token := View(sv.start, i);
        rest := View(sv.start + i + 1, sv.len - i - 1);
        assert Content(text, token) == s[..i];
        assert Content(text, rest) == s[i + 1..];
        return true, rest, token;
      }
      i := i + 1;
    }
    token := View(sv.start, sv.len);
    ok := true;
  }

  // `v` is a slice of the text that reads `f`.
  predicate Reads(text: string, v: View, f: string) {
    v.View? && Within(text, v) && Content(text, v) == f
  }

  // Fills at most `max` entries of `out` and returns the number of all fields.
  method Split(text: string, sv: View, sep: char, out: array<View>, max: nat) returns (count: nat)
    requires Within(text, sv) && max <= out.Length
    modifies out
    ensures count == |Remaining(text, sv, sep)|
    ensures forall k :: 0 <= k < count && k < max ==> Reads(text, out[k], Remaining(text, sv, sep)[k])
    ensures forall k :: 0 <= k < out.Length && (k >= count || k >= max) ==> out[k] == old(out[k])
  {
    ghost var all := Remaining(text, sv, sep);
    var rest := sv;
    count := 0;
    while rest.View?
      invariant Within(text, rest)
      invariant count <= |all| && all[count..] == Remaining(text, rest, sep)
      invariant forall k :: 0 <= k < count && k < max ==> Reads(text, out[k], all[k])
      invariant forall k :: 0 <= k < out.Length && (k >= count || k >= max) ==> out[k] == old(out[k])
      decreases if rest.Null? then 0 else rest.len + 1
    {
      var ok, next, token := SplitNext(text, rest, sep);
      NextField(all, count, Content(text, token), Remaining(text, next, sep));
      if count < max {
        out[count] := token;
      }
      count := count + 1;
      rest := next;
    }
  }

  lemma NextField(all: seq<string>, n: nat, f: string, rest: seq<string>)
    requires n <= |all| && all[n..] == [f] + rest
    ensures n < |all| && all[n] == f && all[n + 1..] == rest
  {
    assert all[n] == all[n..][0];
    assert all[n + 1..] == all[n..][1..];
  }

  // ---- splitting and joining undo each other ------------------------------------------------------------

  function JoinFields(fs: seq<string>, sep: char): string
    requires |fs| > 0
  {
    if |fs| == 1 then fs[0] else fs[0] + [sep] + JoinFields(fs[1..], sep)
  }

  lemma {:induction false} JoinSplit(s: string, sep: char)
    ensures JoinFields(Fields(s, sep), sep) == s
    decreases |s|
  {
    var i := IndexOf(s, sep);
    if i == |s| {
    } else {
      var rest := s[i + 1..];
      JoinSplit(rest, sep);
      var fs := Fields(rest, sep);
      assert ([s[..i]] + fs)[1..] == fs;
      assert JoinFields([s[..i]] + fs, sep) == s[..i] + [sep] + JoinFields(fs, sep);
      assert s == s[..i] + [sep] + rest;
    }
  }

  lemma {:induction false} IndexAfterField(f: string, sep: char, rest: string)
    requires sep !in f
    ensures IndexOf(f + rest, sep) == |f| + IndexOf(rest, sep)
  {
    if f == [] {
      assert f + rest == rest;
    } else {
      IndexAfterField(f[1..], sep, rest);
      assert (f + rest)[1..] == f[1..] + rest;
    }
  }

  lemma FirstField(f: string, rest: string, sep: char)
    requires sep !in f
    ensures Fields(f + [sep] + rest, sep) == [f] + Fields(rest, sep)
  {
    var s := f + [sep] + rest;
    assert s == f + ([sep] + rest);
    IndexAfterField(f, sep, [sep] + rest);
    assert IndexOf([sep] + rest, sep) == 0;
    assert s[..|f|] == f && s[|f| + 1..] == rest;
  }

  lemma {:induction false} SplitJoin(fs: seq<string>, sep: char)
    requires |fs| > 0 && forall k :: 0 <= k < |fs| ==> sep !in fs[k]
    ensures Fields(JoinFields(fs, sep), sep) == fs
    decreases |fs|
  {
    if |fs| == 1 {
      IndexAfterField(fs[0], sep, []);
      assert fs[0] + [] == fs[0];
    } else {
      SplitJoin(fs[1..], sep);
      var rest := JoinFields(fs[1..], sep);
      FirstField(fs[0], rest, sep);
      assert fs == [fs[0]] + fs[1..];
    }
  }

  lemma {:induction false} FieldsSeparatorFree(s: string, sep: char)
    ensures forall k :: 0 <= k < |Fields(s, sep)| ==> sep !in Fields(s, sep)[k]
    decreases |s|
  {
    var i := IndexOf(s, sep);
    if i < |s| {
      FieldsSeparatorFree(s[i + 1..], sep);
    } else {
      assert s[..i] == s;
    }
  }

  // The number of fields is one more than the number of separators.
  lemma {:induction false} FieldCount(s: string, sep: char)
    ensures |Fields(s, sep)| == multiset(s)[sep] + 1
    decreases |s|
  {
    var i := IndexOf(s, sep);
    if i < |s| {
      FieldCount(s[i + 1..], sep);
      assert s == s[..i] + [sep] + s[i + 1..];
    } else {
      assert s[..i] == s;
    }
  }
}
