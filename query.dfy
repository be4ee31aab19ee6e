/**
 * Query strings: `key=value` pairs joined with `&`, as both programs write
 * them into the authorization URL, and the split that reads them back.
 */
module Query {
  import opened Wrappers

  /** The pieces of `t` between occurrences of `sep`; there is always at least one. */
  function Split(t: string, sep: char): (parts: seq<string>)
    ensures |parts| >= 1
    decreases |t|
  {
    if t == [] then [[]]
    else
      var rest := Split(t[1..], sep);
      if t[0] == sep then [[]] + rest else [[t[0]] + rest[0]] + rest[1..]
  }

  /** The parts with one `sep` between neighbours. */
  function Join(parts: seq<string>, sep: char): string
    decreases |parts|
  {
    if parts == [] then []
    else if |parts| == 1 then parts[0]
    else parts[0] + [sep] + Join(parts[1..], sep)
  }

  /** Text without the separator is one piece. */
  lemma {:induction false} SplitNoSep(t: string, sep: char)
    requires sep !in t
    ensures Split(t, sep) == [t]
    decreases |t|
  {
    if t != [] {
      SplitNoSep(t[1..], sep);
      assert [t[0]] + t[1..] == t;
    }
  }

  /** Splitting stops at the first separator. */
  lemma {:induction false} SplitAtFirst(a: string, sep: char, b: string)
    requires sep !in a
    ensures Split(a + [sep] + b, sep) == [a] + Split(b, sep)
    decreases |a|
  {
    var t := a + [sep] + b;
    if a == [] {
      assert t[0] == sep && t[1..] == b;
    } else {
      assert t[0] == a[0] && t[1..] == a[1..] + [sep] + b;
      SplitAtFirst(a[1..], sep, b);
      assert [a[0]] + a[1..] == a;
    }
  }

  predicate NoSep(parts: seq<string>, sep: char) {
    forall i :: 0 <= i < |parts| ==> sep !in parts[i]
  }

  /** Splitting a join gives the parts back when no part contains the separator. */
  lemma {:induction false} SplitJoin(parts: seq<string>, sep: char)
    requires |parts| >= 1 && NoSep(parts, sep)
    ensures Split(Join(parts, sep), sep) == parts
    decreases |parts|
  {
    if |parts| == 1 {
      SplitNoSep(parts[0], sep);
    } else {
      SplitJoin(parts[1..], sep);
      SplitAtFirst(parts[0], sep, Join(parts[1..], sep));
      assert [parts[0]] + parts[1..] == parts;
    }
  }

  /** One `key=value` piece. */
  function Piece(pair: (string, string)): string {
    pair.0 + "=" + pair.1
  }

  function Pieces(pairs: seq<(string, string)>): (pieces: seq<string>)
    ensures |pieces| == |pairs|
    decreases |pairs|
  {
    if pairs == [] then [] else [Piece(pairs[0])] + Pieces(pairs[1..])
  }

  /** The query string of the pairs, in order: `k1=v1&k2=v2&...`. */
  function JoinQuery(pairs: seq<(string, string)>): string {
    Join(Pieces(pairs), '&')
  }

  /** A piece read back as a pair; None unless it holds exactly one `=`. */
  function SplitPair(piece: string): Option<(string, string)> {
    var kv := Split(piece, '=');
    if |kv| == 2 then Some((kv[0], kv[1])) else None
  }

  function SplitPairs(pieces: seq<string>): Option<seq<(string, string)>>
    decreases |pieces|
  {
    if pieces == [] then Some([])
    else match (SplitPair(pieces[0]), SplitPairs(pieces[1..]))
      case (Some(p), Some(ps)) => Some([p] + ps)
      case _ => None
  }

  /** The pairs of a query string, still encoded; the empty query has none. */
  function SplitQuery(q: string): Option<seq<(string, string)>> {
    if q == [] then Some([]) else SplitPairs(Split(q, '&'))
  }

  /** Keys and values that a query string can carry unambiguously: no `&` and no `=` in them. */
  predicate Plain(pairs: seq<(string, string)>) {
    forall i :: 0 <= i < |pairs| ==> PlainText(pairs[i].0) && PlainText(pairs[i].1)
  }

  predicate PlainText(s: string) {
    '&' !in s && '=' !in s
  }

  lemma SplitPiece(pair: (string, string))
    requires '=' !in pair.0 && '=' !in pair.1
    ensures SplitPair(Piece(pair)) == Some(pair)
  {
    SplitNoSep(pair.1, '=');
    SplitAtFirst(pair.0, '=', pair.1);
  }

  lemma {:induction false} SplitPieces(pairs: seq<(string, string)>)
    requires Plain(pairs)
    ensures SplitPairs(Pieces(pairs)) == Some(pairs)
    ensures NoSep(Pieces(pairs), '&')
    decreases |pairs|
  {
    if pairs != [] {
      var pair := pairs[0];
      assert PlainText(pair.0) && PlainText(pair.1);
      SplitPiece(pair);
      SplitPieces(pairs[1..]);
      assert Pieces(pairs)[1..] == Pieces(pairs[1..]);
      assert [pairs[0]] + pairs[1..] == pairs;
    }
  }

  /** Reading back a query string that was joined from plain pairs gives the pairs, in order. */
  lemma SplitJoinQuery(pairs: seq<(string, string)>)
    requires Plain(pairs)
    ensures SplitQuery(JoinQuery(pairs)) == Some(pairs)
  {
    SplitPieces(pairs);
    if pairs != [] {
      SplitJoin(Pieces(pairs), '&');
      assert '=' in JoinQuery(pairs) by {
        assert Pieces(pairs)[0] == Piece(pairs[0]);
        assert Piece(pairs[0])[|pairs[0].0|] == '=';
        assert JoinQuery(pairs)[|pairs[0].0|] == '=';
      }
    }
  }

  /** The value of the first pair with the key, as a server reads a parameter. */
  function Lookup(pairs: seq<(string, string)>, key: string): (v: Option<string>)
    ensures v.Some? <==> exists i :: 0 <= i < |pairs| && pairs[i].0 == key
    decreases |pairs|
  {
    if pairs == [] then None
    else if pairs[0].0 == key then Some(pairs[0].1)
    else
      var v := Lookup(pairs[1..], key);
      assert forall i :: 1 <= i < |pairs| ==> pairs[i] == pairs[1..][i - 1];
      v
  }

  /** A query string of two or more pairs is the first piece, an `&`, and the query of the rest. */
  lemma JoinQueryCons(pair: (string, string), rest: seq<(string, string)>)
    ensures rest != [] ==> JoinQuery([pair] + rest) == Piece(pair) + "&" + JoinQuery(rest)
    ensures rest == [] ==> JoinQuery([pair] + rest) == Piece(pair)
  {
    assert ([pair] + rest)[1..] == rest;
  }

  /** A query string of four pairs written out, after any prefix. */
  lemma JoinQuery4(prefix: string, p0: (string, string), p1: (string, string), p2: (string, string), p3: (string, string))
    ensures prefix + JoinQuery([p0, p1, p2, p3])
         == prefix + p0.0 + "=" + p0.1 + "&" + p1.0 + "=" + p1.1 + "&" + p2.0 + "=" + p2.1 + "&" + p3.0 + "=" + p3.1
  {
    var ps := [p0, p1, p2, p3];
    JoinQueryCons(p0, ps[1..]);
    JoinQueryCons(p1, ps[2..]);
    JoinQueryCons(p2, ps[3..]);
    JoinQueryCons(p3, []);
    assert [p0] + ps[1..] == ps;
    assert [p1] + ps[2..] == ps[1..];
    assert [p2] + ps[3..] == ps[2..];
    assert [p3] + [] == ps[3..];
    var x1 := prefix + p0.0 + "=" + p0.1 + "&";
    var x2 := x1 + p1.0 + "=" + p1.1 + "&";
    var x3 := x2 + p2.0 + "=" + p2.1 + "&";
    PrefixPiece(prefix, p0, JoinQuery(ps[1..]));
    PrefixPiece(x1, p1, JoinQuery(ps[2..]));
    PrefixPiece(x2, p2, JoinQuery(ps[3..]));
    PrefixLastPiece(x3, p3);
  }

  lemma PrefixPiece(x: string, pair: (string, string), rest: string)
    ensures x + (Piece(pair) + "&" + rest) == x + pair.0 + "=" + pair.1 + "&" + rest
  {
  }

  lemma PrefixLastPiece(x: string, pair: (string, string))
    ensures x + Piece(pair) == x + pair.0 + "=" + pair.1
  {
  }

  lemma Plain4(p0: (string, string), p1: (string, string), p2: (string, string), p3: (string, string))
    requires PlainText(p0.0) && PlainText(p0.1) && PlainText(p1.0) && PlainText(p1.1)
    requires PlainText(p2.0) && PlainText(p2.1) && PlainText(p3.0) && PlainText(p3.1)
    ensures Plain([p0, p1, p2, p3])
  {
  }

  /** Every character of a query string is a delimiter or a character of some key or value. */
  lemma {:induction false} JoinQueryChars(pairs: seq<(string, string)>, ok: char -> bool)
    requires ok('&') && ok('=')
    requires forall i, j :: 0 <= i < |pairs| && 0 <= j < |pairs[i].0| ==> ok(pairs[i].0[j])
    requires forall i, j :: 0 <= i < |pairs| && 0 <= j < |pairs[i].1| ==> ok(pairs[i].1[j])
    ensures forall j :: 0 <= j < |JoinQuery(pairs)| ==> ok(JoinQuery(pairs)[j])
    decreases |pairs|
  {
    if pairs != [] {
      var pair, rest := pairs[0], pairs[1..];
      assert [pair] + rest == pairs;
      JoinQueryCons(pair, rest);
      assert forall j :: 0 <= j < |pair.0| ==> ok(pair.0[j]);
      assert forall j :: 0 <= j < |pair.1| ==> ok(pair.1[j]);
      var piece := Piece(pair);
      assert forall j :: 0 <= j < |piece| ==> ok(piece[j]);
      if rest != [] {
        assert forall i :: 0 <= i < |rest| ==> rest[i] == pairs[i + 1];
        JoinQueryChars(rest, ok);
      }
    }
  }

  /** In four pairs, a key is found at the first pair that carries it. */
  lemma Lookup4(p0: (string, string), p1: (string, string), p2: (string, string), p3: (string, string))
    ensures Lookup([p0, p1, p2, p3], p0.0) == Some(p0.1)
    ensures p1.0 != p0.0 ==> Lookup([p0, p1, p2, p3], p1.0) == Some(p1.1)
    ensures p2.0 != p0.0 && p2.0 != p1.0 ==> Lookup([p0, p1, p2, p3], p2.0) == Some(p2.1)
    ensures p3.0 != p0.0 && p3.0 != p1.0 && p3.0 != p2.0 ==> Lookup([p0, p1, p2, p3], p3.0) == Some(p3.1)
  {
    var ps := [p0, p1, p2, p3];
    assert ps[1..] == [p1, p2, p3] && [p1, p2, p3][1..] == [p2, p3] && [p2, p3][1..] == [p3];
    if p1.0 != p0.0 {
      assert Lookup(ps, p1.0) == Lookup([p1, p2, p3], p1.0);
    }
    if p2.0 != p0.0 && p2.0 != p1.0 {
      assert Lookup(ps, p2.0) == Lookup([p1, p2, p3], p2.0) == Lookup([p2, p3], p2.0);
    }
    if p3.0 != p0.0 && p3.0 != p1.0 && p3.0 != p2.0 {
      assert Lookup(ps, p3.0) == Lookup([p1, p2, p3], p3.0) == Lookup([p2, p3], p3.0) == Lookup([p3], p3.0);
    }
  }
}
