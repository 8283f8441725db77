/** Attributes of a P2P element: identifier, little-endian length, data. */
module P2pAttributes {
  import opened Sequences
  import opened Elements

  datatype Attr = Attr(id: byte, data: seq<byte>)

  predicate AttrsFit(attrs: seq<Attr>) {
    forall i :: 0 <= i < |attrs| ==> |attrs[i].data| < 0x10000
  }

  function PrintAttr(a: Attr): (s: seq<byte>)
    requires |a.data| < 0x10000
    ensures |s| == |a.data| + 3
  {
    [a.id, |a.data| % 256, |a.data| / 256] + a.data
  }

  function PrintAttrs(attrs: seq<Attr>): (s: seq<byte>)
    requires AttrsFit(attrs)
  {
    if attrs == [] then [] else PrintAttr(attrs[0]) + PrintAttrs(attrs[1..])
  }

  /** `RTW_GET_LE16` of the length, plus the header. */
  function AttrLen(s: seq<byte>): (n: nat)
    requires |s| >= 3
    ensures 3 <= n < 0x10003
  {
    s[1] as int + 256 * s[2] as int + 3
  }

  predicate AttrsWellFormed(s: seq<byte>)
    decreases |s|
  {
    s == [] || (|s| >= 3 && |s| >= AttrLen(s) && AttrsWellFormed(s[AttrLen(s)..]))
  }

  function HeadAttr(s: seq<byte>): (a: Attr)
    requires |s| >= 3 && |s| >= AttrLen(s)
    ensures |a.data| < 0x10000 && PrintAttr(a) == s[..AttrLen(s)]
  {
    var a := Attr(s[0], s[3..AttrLen(s)]);
    assert PrintAttr(a)[1] == s[1] && PrintAttr(a)[2] == s[2];
    assert s[..AttrLen(s)] == [s[0], s[1], s[2]] + s[3..AttrLen(s)];
    a
  }

  function ParseAttrs(s: seq<byte>): (attrs: seq<Attr>)
    requires AttrsWellFormed(s)
    ensures AttrsFit(attrs)
    decreases |s|
  {
    if s == [] then [] else [HeadAttr(s)] + ParseAttrs(s[AttrLen(s)..])
  }

  lemma {:induction false} PrintParseAttrs(s: seq<byte>)
    requires AttrsWellFormed(s)
    ensures PrintAttrs(ParseAttrs(s)) == s
    decreases |s|
  {
    if s != [] {
      var rest := s[AttrLen(s)..];
      PrintParseAttrs(rest);
      assert ParseAttrs(s)[1..] == ParseAttrs(rest);
      assert s[..AttrLen(s)] + rest == s;
    }
  }

  lemma HeadOfPrintAttr(a: Attr, rest: seq<byte>)
    requires |a.data| < 0x10000
    ensures var s := PrintAttr(a) + rest;
            |s| >= AttrLen(s) && AttrLen(s) == |a.data| + 3 && HeadAttr(s) == a && s[AttrLen(s)..] == rest
  {
    var s := PrintAttr(a) + rest;
    assert s[0] == a.id && s[1] == |a.data| % 256 && s[2] == |a.data| / 256;
    assert s[3..AttrLen(s)] == a.data;
  }

  lemma {:induction false} ParsePrintAttrs(attrs: seq<Attr>)
    requires AttrsFit(attrs)
    ensures AttrsWellFormed(PrintAttrs(attrs)) && ParseAttrs(PrintAttrs(attrs)) == attrs
  {
    if attrs != [] {
      ParsePrintAttrs(attrs[1..]);
      HeadOfPrintAttr(attrs[0], PrintAttrs(attrs[1..]));
    }
  }

  lemma {:induction false} PrintAttrsConcat(a: seq<Attr>, b: seq<Attr>)
    requires AttrsFit(a) && AttrsFit(b)
    ensures AttrsFit(a + b) && PrintAttrs(a + b) == PrintAttrs(a) + PrintAttrs(b)
  {
    if a == [] {
      NothingBefore(b);
      NothingBefore(PrintAttrs(b));
    } else {
      ConcatHead(a, b);
      PrintAttrsConcat(a[1..], b);
      Assoc(PrintAttr(a[0]), PrintAttrs(a[1..]), PrintAttrs(b));
    }
  }

  /** The attributes with another identifier, in order. */
  function WithoutAttr(attrs: seq<Attr>, id: byte): (r: seq<Attr>)
    ensures AttrsFit(attrs) ==> AttrsFit(r)
  {
    if attrs == [] then []
    else (if attrs[0].id == id then [] else [attrs[0]]) + WithoutAttr(attrs[1..], id)
  }

  lemma WithoutAttrCons(h: Attr, t: seq<Attr>, id: byte)
    ensures WithoutAttr([h] + t, id) == (if h.id == id then [] else [h]) + WithoutAttr(t, id)
  {
    Cons(h, t);
  }

  lemma {:induction false} WithoutAttrNothing(attrs: seq<Attr>, id: byte)
    requires forall i :: 0 <= i < |attrs| ==> attrs[i].id != id
    ensures WithoutAttr(attrs, id) == attrs
  {
    if attrs != [] {
      WithoutAttrNothing(attrs[1..], id);
      assert [attrs[0]] + attrs[1..] == attrs;
    }
  }

  /** What filtering means: exactly the attributes with another identifier stay, each as
      often as before. */
  lemma {:induction false} WithoutAttrKeeps(attrs: seq<Attr>, id: byte, a: Attr)
    ensures multiset(WithoutAttr(attrs, id))[a] == if a.id == id then 0 else multiset(attrs)[a]
  {
    if attrs != [] {
      WithoutAttrKeeps(attrs[1..], id, a);
      assert attrs == [attrs[0]] + attrs[1..];
    }
  }

  /** The first attribute with identifier `id`: the octets before it, its length, and the
      attributes around it. */
  datatype Found = NotThere | At(offset: nat, len: nat, before: seq<Attr>, after: seq<Attr>)

  ghost function FindAttr(s: seq<byte>, id: byte): (f: Found)
    requires AttrsWellFormed(s)
    decreases |s|
  {
    if s == [] then NotThere
    else if s[0] == id then At(0, AttrLen(s), [], ParseAttrs(s[AttrLen(s)..]))
    else
      match FindAttr(s[AttrLen(s)..], id)
      case NotThere => NotThere
      case At(offset, len, before, after) => At(AttrLen(s) + offset, len, [HeadAttr(s)] + before, after)
  }

  lemma {:induction false} NotThereMeans(s: seq<byte>, id: byte)
    requires AttrsWellFormed(s) && FindAttr(s, id).NotThere?
    ensures WithoutAttr(ParseAttrs(s), id) == ParseAttrs(s)
    decreases |s|
  {
    if s != [] {
      var rest := s[AttrLen(s)..];
      NotThereMeans(rest, id);
      assert ParseAttrs(s)[0] == HeadAttr(s) && ParseAttrs(s)[1..] == ParseAttrs(rest);
    }
  }

  /** Cutting the attribute that was found leaves the octets of the others. */
  lemma {:induction false} AtMeans(s: seq<byte>, id: byte)
    requires AttrsWellFormed(s) && FindAttr(s, id).At?
    ensures var f := FindAttr(s, id);
            && 3 <= f.len && f.offset + f.len <= |s|
            && AttrsFit(f.before) && AttrsFit(f.after)
            && s[..f.offset] == PrintAttrs(f.before) && s[f.offset + f.len..] == PrintAttrs(f.after)
    decreases |s|
  {
    var f, rest := FindAttr(s, id), s[AttrLen(s)..];
    if s[0] == id {
      PrintParseAttrs(rest);
    } else {
      AtMeans(rest, id);
      AtStep(s, FindAttr(rest, id), f);
    }
  }

  /** Dropping the first attribute with the identifier does not change the filtered list. */
  lemma {:induction false} AtFilters(s: seq<byte>, id: byte)
    requires AttrsWellFormed(s) && FindAttr(s, id).At?
    ensures var f := FindAttr(s, id);
            WithoutAttr(ParseAttrs(s), id) == WithoutAttr(f.before + f.after, id)
    decreases |s|
  {
    hide WithoutAttr;
    var f, rest := FindAttr(s, id), s[AttrLen(s)..];
    WithoutAttrCons(HeadAttr(s), ParseAttrs(rest), id);
    if s[0] == id {
      assert f.before + f.after == f.after;
      assert [] + WithoutAttr(f.after, id) == WithoutAttr(f.after, id);
    } else {
      AtFilters(rest, id);
      var g := FindAttr(rest, id);
      WithoutAttrCons(HeadAttr(s), g.before + g.after, id);
      assert f.before + f.after == [HeadAttr(s)] + (g.before + g.after);
    }
  }

  lemma AtStep(s: seq<byte>, g: Found, f: Found)
    requires |s| >= 3 && |s| >= AttrLen(s) && g.At? && g.offset + g.len <= |s[AttrLen(s)..]|
    requires AttrsFit(g.before) && AttrsFit(g.after)
    requires s[AttrLen(s)..][..g.offset] == PrintAttrs(g.before)
    requires s[AttrLen(s)..][g.offset + g.len..] == PrintAttrs(g.after)
    requires f == At(AttrLen(s) + g.offset, g.len, [HeadAttr(s)] + g.before, g.after)
    ensures s[..f.offset] == PrintAttrs(f.before) && s[f.offset + f.len..] == PrintAttrs(f.after)
  {
    var n := AttrLen(s);
    var rest := s[n..];
    assert f.before[0] == HeadAttr(s) && f.before[1..] == g.before;
    assert s[..f.offset] == s[..n] + rest[..g.offset];
    assert s[f.offset + f.len..] == rest[g.offset + g.len..];
  }
}
