/** The PHP string builtins the class-name derivation of the formatter relies on:
    `ucfirst`, `substr($s, 1)`, `explode` and its inverse `implode`.
    Strings are sequences of single-byte characters; only the ASCII rule of
    `ucfirst` is modelled (PHP 8.2 no longer consults the locale for it). */
module PhpStrings {

  /** Upper-cases one byte the way PHP 8.2's `ucfirst` does: `a`..`z` become
      `A`..`Z`, every other character is left as it is. */
  function UpperAscii(c: char): (u: char)
    ensures 'a' <= c <= 'z' ==> 'A' <= u <= 'Z' && u as int == c as int - 32
    ensures !('a' <= c <= 'z') ==> u == c
  {
    if 'a' <= c <= 'z' then (c as int - 32) as char else c
  }

  /** `ucfirst($s)`: the same string with its first character upper-cased;
      the empty string stays empty. */
  function Ucfirst(s: string): (r: string)
    ensures |r| == |s|
    ensures |s| > 0 ==> r[0] == UpperAscii(s[0]) && r[1..] == s[1..]
  {
    if |s| == 0 then s else [UpperAscii(s[0])] + s[1..]
  }

  /** `substr($s, 1)` under PHP 8: everything after the first character,
      whatever that character is, and "" for the empty string. */
  function DropFirst(s: string): (r: string)
    ensures |s| == 0 ==> r == ""
    ensures |s| > 0 ==> [s[0]] + r == s
  {
    if |s| == 0 then "" else s[1..]
  }

  /** `explode($sep, $s)` for a one-character separator: the maximal pieces
      of `s` between occurrences of `sep`, in order. There is always at least
      one piece (`explode('-', '')` is `['']`) and no piece holds `sep`. */
  function Explode(sep: char, s: string): (parts: seq<string>)
    ensures |parts| >= 1
    ensures forall i :: 0 <= i < |parts| ==> sep !in parts[i]
    decreases |s|
  {
    if |s| == 0 then [""]
    else
      var rest := Explode(sep, s[1..]);
      if s[0] == sep then [""] + rest
      else [[s[0]] + rest[0]] + rest[1..]
  }

  /** Splitting a string that starts with an ordinary character: that
      character is glued onto the first piece of the rest. */
  lemma ExplodeWord(sep: char, s: string)
    requires |s| > 0 && s[0] != sep
    ensures Explode(sep, s)[0] == [s[0]] + Explode(sep, s[1..])[0]
    ensures Explode(sep, s)[1..] == Explode(sep, s[1..])[1..]
  {
  }

  /** `implode($sep, $parts)`: the parts joined with `sep` between neighbours. */
  function Implode(sep: char, parts: seq<string>): (s: string)
    decreases |parts|
  {
    if |parts| == 0 then ""
    else if |parts| == 1 then parts[0]
    else parts[0] + [sep] + Implode(sep, parts[1..])
  }

  /** Splitting loses nothing: joining the pieces back gives the input. */
  lemma {:induction false} ImplodeExplode(sep: char, s: string)
    ensures Implode(sep, Explode(sep, s)) == s
    decreases |s|
  {
    if |s| > 0 {
      var rest := Explode(sep, s[1..]);
      ImplodeExplode(sep, s[1..]);
      assert s == [s[0]] + s[1..];
      if s[0] == sep {
        assert Implode(sep, [""] + rest) == "" + [sep] + Implode(sep, rest);
      } else {
        var parts := [[s[0]] + rest[0]] + rest[1..];
        if |rest| == 1 {
          assert parts == [[s[0]] + rest[0]];
        } else {
          assert parts[1..] == rest[1..];
          assert Implode(sep, rest) == rest[0] + [sep] + Implode(sep, rest[1..]);
        }
      }
    }
  }

  /** Splitting `p + t` where `p` holds no separator: `p` is glued onto the
      first piece of `t`, the other pieces of `t` are kept. */
  lemma {:induction false} ExplodePrepend(sep: char, p: string, t: string)
    requires sep !in p
    ensures Explode(sep, p + t) == [p + Explode(sep, t)[0]] + Explode(sep, t)[1..]
    decreases |p|
  {
    var e := Explode(sep, t);
    if |p| == 0 {
      assert p + t == t && p + e[0] == e[0];
      assert e == [e[0]] + e[1..];
    } else {
      ExplodePrepend(sep, p[1..], t);
      assert (p + t)[0] == p[0] && (p + t)[1..] == p[1..] + t;
      var rest := Explode(sep, p[1..] + t);
      assert rest == [p[1..] + e[0]] + e[1..];
      assert rest[1..] == e[1..];
      assert [p[0]] + rest[0] == p + e[0];
    }
  }

  /** Joining pieces that hold no separator and splitting again gives the
      same pieces back. */
  lemma {:induction false} ExplodeImplode(sep: char, parts: seq<string>)
    requires |parts| >= 1
    requires forall i :: 0 <= i < |parts| ==> sep !in parts[i]
    ensures Explode(sep, Implode(sep, parts)) == parts
    decreases |parts|
  {
    if |parts| == 1 {
      ExplodePrepend(sep, parts[0], "");
      assert parts[0] + "" == parts[0];
    } else {
      var tail := Implode(sep, parts[1..]);
      ExplodeImplode(sep, parts[1..]);
      ExplodePrepend(sep, parts[0], [sep] + tail);
      assert ([sep] + tail)[1..] == tail;
      assert parts[0] + [sep] + tail == parts[0] + ([sep] + tail);
      var e := Explode(sep, [sep] + tail);
      assert e == [""] + parts[1..];
      assert parts[0] + e[0] == parts[0];
      assert e[1..] == parts[1..];
      assert parts == [parts[0]] + parts[1..];
    }
  }
}
