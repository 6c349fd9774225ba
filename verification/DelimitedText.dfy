/** Text made of parts with a delimiter between them. */
module DelimitedText {
  import opened Wrappers

  function Implode(parts: seq<string>, c: char): string {
    if parts == [] then "" else if |parts| == 1 then parts[0] else parts[0] + [c] + Implode(parts[1..], c)
  }

  function Explode(s: string, c: char): (parts: seq<string>)
    ensures parts != []
  {
    if s == "" then [""]
    else
      var rest := Explode(s[1..], c);
      if s[0] == c then [""] + rest else [[s[0]] + rest[0]] + rest[1..]
  }

  predicate Free(s: string, c: char) {
    c !in s
  }

  lemma {:induction false} ExplodedFree(s: string, c: char)
    ensures forall part | part in Explode(s, c) :: Free(part, c)
  {
    if s != "" {
      ExplodedFree(s[1..], c);
      var rest := Explode(s[1..], c);
      assert Free(rest[0], c);
      forall part | part in Explode(s, c) ensures Free(part, c) {
        assert part in rest || part == "" || part == [s[0]] + rest[0];
      }
    }
  }

  lemma {:induction false} ImplodeExplode(s: string, c: char)
    ensures Implode(Explode(s, c), c) == s
  {
    if s != "" {
      var rest := Explode(s[1..], c);
      ImplodeExplode(s[1..], c);
      if s[0] == c {
        assert ([""] + rest)[1..] == rest;
        assert s == [c] + s[1..];
      } else {
        assert ([[s[0]] + rest[0]] + rest[1..])[1..] == rest[1..];
        assert s == [s[0]] + s[1..];
      }
    }
  }

  lemma {:induction false} ExplodePart(part: string, rest: string, c: char)
    requires Free(part, c)
    ensures Explode(part, c) == [part]
    ensures Explode(part + [c] + rest, c) == [part] + Explode(rest, c)
  {
    if part == "" {
      assert part + [c] + rest == [c] + rest;
      assert ([c] + rest)[1..] == rest;
    } else {
      ExplodePart(part[1..], rest, c);
      assert (part + [c] + rest)[1..] == part[1..] + [c] + rest;
      assert part == [part[0]] + part[1..];
    }
  }

  lemma {:induction false} ExplodeImplode(parts: seq<string>, c: char)
    requires parts != [] && forall part | part in parts :: Free(part, c)
    ensures Explode(Implode(parts, c), c) == parts
  {
    if |parts| == 1 {
      ExplodePart(parts[0], "", c);
    } else {
      ExplodeImplode(parts[1..], c);
      ExplodePart(parts[0], Implode(parts[1..], c), c);
    }
  }

  lemma {:induction false} ImplodeAppend(parts: seq<string>, last: string, c: char)
    requires parts != []
    ensures Implode(parts + [last], c) == Implode(parts, c) + [c] + last
  {
    if |parts| == 1 {
      assert (parts + [last])[1..] == [last];
    } else {
      assert (parts + [last])[1..] == parts[1..] + [last];
      ImplodeAppend(parts[1..], last, c);
    }
  }

  /** The position of the first `c`, if any. */
  function Position(s: string, c: char): (r: Option<nat>)
    ensures r.Some? ==> r.value < |s|
  {
    if s == "" then None
    else if s[0] == c then Some(0)
    else match Position(s[1..], c) case None => None case Some(i) => Some(i + 1)
  }

  lemma {:induction false} PositionNone(s: string, c: char)
    ensures Position(s, c).None? <==> Free(s, c)
  {
    if s != "" { PositionNone(s[1..], c); }
  }

  lemma {:induction false} PositionFirst(head: string, rest: string, c: char)
    requires Free(head, c)
    ensures Position(head + [c] + rest, c) == Some(|head|)
  {
    if head == "" {
      assert head + [c] + rest == [c] + rest;
    } else {
      assert (head + [c] + rest)[1..] == head[1..] + [c] + rest;
      PositionFirst(head[1..], rest, c);
    }
  }

  /** No parts make the empty text; several stand in order with one delimiter between two of them. */
  lemma ImplodeTexts(a: string, b: string, d: string, c: char)
    ensures Implode([], c) == "" && Implode([a], c) == a && Implode([a, b], c) == a + [c] + b
    ensures Implode([a, b, d], c) == a + [c] + (b + [c] + d)
  {
    assert [a, b][1..] == [b] && [b, d][1..] == [d] && [a, b, d][1..] == [b, d];
    assert Implode([b, d], c) == b + [c] + d;
  }
}
