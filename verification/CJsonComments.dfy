/** What `CJsonMinify.Minify` makes of blanks, comments and anything else, in bytes. */
module CJsonComments {
  import opened Bytes
  import opened CJsonMinify
  import opened CJsonString

  /** Space, tab, carriage return and line feed are dropped. */
  lemma BlankDropped(b: byte, rest: seq<byte>)
    requires b in [32, 9, 13, 10]
    ensures Minify([b] + rest) == Minify(rest)
  {
    assert ([b] + rest)[1..] == rest;
  }

  /** Two slashes and what follows them on the line are dropped. */
  lemma LineCommentDropped(body: seq<byte>, rest: seq<byte>)
    requires 10 !in body
    ensures Minify([47, 47] + body + [10] + rest) == Minify(rest)
    ensures Minify([47, 47] + body) == Minified([])
  {
    var s := [47, 47] + body;
    SkipsLine(s, [10] + rest);
    SkipsLine(s, []);
    assert s + ([10] + rest) == [47, 47] + body + [10] + rest && s + [] == s;
    BlankDropped(10, rest);
  }

  lemma {:induction false} SkipsLine(a: seq<byte>, rest: seq<byte>)
    requires 10 !in a && (rest == [] || rest[0] == 10)
    ensures SkipLine(a + rest) == rest
  {
    if a == [] {
      assert a + rest == rest;
    } else {
      SkipsLine(a[1..], rest);
      assert (a + rest)[1..] == a[1..] + rest;
    }
  }

  /** No star with a slash behind it. */
  predicate NoEnd(s: seq<byte>) {
    |s| >= 2 ==> !(s[0] == 42 && s[1] == 47) && NoEnd(s[1..])
  }

  /** From a slash and a star on everything is dropped, up to the first star with a slash behind it; the star
      that begins the comment may be that one. */
  lemma BlockCommentDropped(body: seq<byte>, rest: seq<byte>)
    requires NoEnd([42] + body + [42])
    ensures Minify([47, 42] + body + [42, 47] + rest) == Minify(rest)
  {
    var a, end := [47, 42] + body, [42, 47] + rest;
    assert (a + [42])[1..] == [42] + body + [42];
    SkipsBlock(a, rest);
    assert a + end == [47, 42] + body + [42, 47] + rest && end[2..] == rest;
  }

  lemma ShortBlockDropped(rest: seq<byte>)
    ensures Minify([47, 42, 47] + rest) == Minify(rest)
  {
    var s := [47, 42, 47] + rest;
    assert s[1..] == [42, 47] + rest && s[1..][2..] == rest;
    assert SkipBlock(s) == SkipBlock(s[1..]) == s[1..];
  }

  lemma {:induction false} SkipsBlock(a: seq<byte>, rest: seq<byte>)
    requires NoEnd(a + [42])
    ensures SkipBlock(a + ([42, 47] + rest)) == [42, 47] + rest
  {
    var end := [42, 47] + rest;
    if a == [] {
      assert a + end == end;
    } else {
      assert (a + [42])[1..] == a[1..] + [42];
      assert (a + [42])[1] == At(a + end, 1);
      SkipsBlock(a[1..], rest);
      assert (a + end)[1..] == a[1..] + end;
    }
  }

  /** Any other byte but a quote is kept. */
  lemma ByteKept(b: byte, rest: seq<byte>)
    requires b !in [32, 9, 13, 10, 34] && (b == 47 ==> At(rest, 0) != 47 && At(rest, 0) != 42)
    ensures Minify([b] + rest) == Keep([b], Minify(rest))
  {
    assert ([b] + rest)[1..] == rest && At([b] + rest, 1) == At(rest, 0);
  }

  /** A literal is kept with its quotes: it is made of bytes other than the quote and the backslash, and of
      backslashes with any byte behind them. */
  predicate Literal(body: seq<byte>) {
    body != [] ==>
      if body[0] == 92 then |body| >= 2 && Literal(body[2..]) else body[0] != 34 && Literal(body[1..])
  }

  lemma {:induction false} LiteralKept(body: seq<byte>, rest: seq<byte>)
    requires Literal(body)
    ensures Minify([34] + body + [34] + rest) == Keep([34] + body + [34], Minify(rest))
  {
    Copied(body, rest);
    var s := [34] + body + [34] + rest;
    assert s[1..] == body + ([34] + rest);
    assert [34] + (body + [34]) == [34] + body + [34];
  }

  lemma {:induction false} Copied(body: seq<byte>, rest: seq<byte>)
    requires Literal(body)
    ensures CopyString(body + ([34] + rest)) == Ok(body + [34], rest)
    decreases |body|
  {
    var s := body + ([34] + rest);
    if body == [] {
      assert s == [34] + rest && body + [34] == [34];
    } else {
      var n := if body[0] == 92 then 2 else 1;
      Copied(body[n..], rest);
      assert s[n..] == body[n..] + ([34] + rest) && s[..n] == body[..n];
      assert body[..n] + (body[n..] + [34]) == body + [34];
      assert n == 1 ==> body[..n] == [s[0]];
    }
  }
}
