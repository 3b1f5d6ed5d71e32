/** Fixed-size fields in a byte stream, as fwrite and fread move them on a little-endian host
    (the field lists of c_src/vault/vault_catalog.c:181-267 and 269-412). */
module ByteLayout {
  import opened Options
  import opened Sequences

  type Byte = b: nat | b < 256

  type Bytes = seq<Byte>

  function Pow256(width: nat): (p: nat)
    ensures p >= 1
  {
    if width == 0 then 1 else 256 * Pow256(width - 1)
  }

  lemma WordSizes()
    ensures Pow256(1) == 0x100 && Pow256(4) == 0x1_0000_0000 && Pow256(8) == 0x1_0000_0000_0000_0000
  {
    assert Pow256(4) == 256 * (256 * (256 * (256 * Pow256(0))));
    assert Pow256(8) == 256 * (256 * (256 * (256 * Pow256(4))));
  }

  /** The low `width` bytes of `n`, low byte first. */
  function Little(width: nat, n: nat): (s: Bytes)
    ensures |s| == width
  {
    if width == 0 then [] else [n % 256] + Little(width - 1, n / 256)
  }

  function Number(s: Bytes): (n: nat)
    ensures n < Pow256(|s|)
  {
    if s == [] then 0 else s[0] + 256 * Number(s[1..])
  }

  lemma {:induction false} NumberOfLittle(width: nat, n: nat)
    ensures n < Pow256(width) ==> Number(Little(width, n)) == n
  {
    if width > 0 {
      var s := Little(width, n);
      assert s[1..] == Little(width - 1, n / 256);
      NumberOfLittle(width - 1, n / 256);
      assert n == n % 256 + 256 * (n / 256);
      if n < Pow256(width) {
        assert 256 * (n / 256) < 256 * Pow256(width - 1);
      }
    }
  }

  /** Two's complement of a signed word. */
  function Unsign(width: nat, i: int): int { if i < 0 then i + Pow256(width) else i }

  function Sign(width: nat, n: nat): int { if 2 * n < Pow256(width) then n else n - Pow256(width) }

  predicate FitsSigned(width: nat, i: int) { -(Pow256(width) as int) <= 2 * i < Pow256(width) }

  /** A signed word survives the trip through its bytes. */
  lemma SignedRoundTrip(width: nat, i: int)
    requires FitsSigned(width, i)
    ensures 0 <= Unsign(width, i) < Pow256(width)
    ensures Sign(width, Number(Little(width, Unsign(width, i)))) == i
  {
    NumberOfLittle(width, Unsign(width, i));
  }

  function Join(fields: seq<Bytes>): Bytes {
    if fields == [] then [] else fields[0] + Join(fields[1..])
  }

  function Lengths(fields: seq<Bytes>): seq<nat> {
    seq(|fields|, i requires 0 <= i < |fields| => |fields[i]|)
  }

  /** Reads fields of the given sizes: a short read fails. */
  function Split(layout: seq<nat>, s: Bytes): (r: Option<(seq<Bytes>, Bytes)>)
    ensures r.Some? ==> Lengths(r.value.0) == layout
    decreases |layout|
  {
    if layout == [] then Some(([], s))
    else if |s| < layout[0] then None
    else
      var tail :- Split(layout[1..], s[layout[0]..]);
      Some(([s[..layout[0]]] + tail.0, tail.1))
  }

  lemma {:induction false} SplitJoin(fields: seq<Bytes>, rest: Bytes)
    ensures Split(Lengths(fields), Join(fields) + rest) == Some((fields, rest))
  {
    if fields == [] {
      assert Join(fields) + rest == rest;
    } else {
      var s := Join(fields) + rest;
      assert Lengths(fields)[1..] == Lengths(fields[1..]);
      assert s == fields[0] + (Join(fields[1..]) + rest);
      assert s[|fields[0]|..] == Join(fields[1..]) + rest;
      assert s[..|fields[0]|] == fields[0];
      SplitJoin(fields[1..], rest);
      assert [fields[0]] + fields[1..] == fields;
    }
  }

  /** What was read stays the same when more follows. */
  lemma {:induction false} SplitExtends(layout: seq<nat>, s: Bytes, more: Bytes)
    requires Split(layout, s).Some?
    ensures Split(layout, s + more) == Some((Split(layout, s).value.0, Split(layout, s).value.1 + more))
    decreases |layout|
  {
    if layout != [] {
      var n := layout[0];
      assert (s + more)[..n] == s[..n];
      assert (s + more)[n..] == s[n..] + more;
      SplitExtends(layout[1..], s[n..], more);
    }
  }

  // ---- Repeated records -----------------------------------------------------------------

  function ParseMany<T>(parse: Bytes -> Option<(T, Bytes)>, n: nat, s: Bytes): (r: Option<(seq<T>, Bytes)>)
    ensures r.Some? ==> |r.value.0| == n
  {
    if n == 0 then Some(([], s))
    else
      var front :- ParseMany(parse, n - 1, s);
      var last :- parse(front.1);
      Some((front.0 + [last.0], last.1))
  }

  /** The image is read back as `x`, and no further. */
  ghost predicate ReadsBack<T(!new)>(parse: Bytes -> Option<(T, Bytes)>, image: Bytes, x: T) {
    forall rest :: parse(image + rest) == Some((x, rest))
  }

  lemma {:induction false} ManyReadBack<T(!new)>(parse: Bytes -> Option<(T, Bytes)>, images: seq<Bytes>, xs: seq<T>, rest: Bytes)
    requires |images| == |xs| && forall i :: 0 <= i < |xs| ==> ReadsBack(parse, images[i], xs[i])
    ensures ParseMany(parse, |xs|, Flatten(images) + rest) == Some((xs, rest))
    decreases |xs|
  {
    if xs == [] {
      assert Flatten(images) + rest == rest;
    } else {
      var k := |xs| - 1;
      assert Flatten(images) + rest == Flatten(images[..k]) + (images[k] + rest);
      ManyReadBack(parse, images[..k], xs[..k], images[k] + rest);
      assert ReadsBack(parse, images[k], xs[k]);
      assert xs[..k] + [xs[k]] == xs;
    }
  }

  /** What is parsed stays the same when more follows. */
  ghost predicate Extends<T(!new)>(parse: Bytes -> Option<(T, Bytes)>) {
    forall s, more :: parse(s).Some? ==> parse(s + more) == Some((parse(s).value.0, parse(s).value.1 + more))
  }

  lemma {:induction false} ManyExtend<T(!new)>(parse: Bytes -> Option<(T, Bytes)>, n: nat, s: Bytes, more: Bytes)
    requires Extends(parse) && ParseMany(parse, n, s).Some?
    ensures ParseMany(parse, n, s + more) ==
            Some((ParseMany(parse, n, s).value.0, ParseMany(parse, n, s).value.1 + more))
  {
    if n > 0 {
      ManyExtend(parse, n - 1, s, more);
    }
  }
}
