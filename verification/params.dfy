/**
 * The `/set` command's parameter parser, shared by index.js and test.js: the message is
 * split on spaces, the command word dropped, and every remaining word folded into an object
 * keyed by the text before its first '='; the command then reads that object's `vnd` entry.
 */
module Params {
  import opened Wrappers

  /** The position of the first `sep` in `s`. */
  function FirstIndex(s: string, sep: char): (i: nat)
    requires sep in s
    ensures i < |s| && s[i] == sep
    ensures forall k :: 0 <= k < i ==> s[k] != sep
  {
    if s[0] == sep then 0 else FirstIndex(s[1..], sep) + 1
  }

  /** `s.split(sep)` for a one-character separator: the text up to the first `sep`, then the split of the rest. */
  function Split(s: string, sep: char): (parts: seq<string>)
    decreases |s|
    ensures |parts| >= 1
  {
    if sep !in s then [s]
    else
      var i := FirstIndex(s, sep);
      [s[..i]] + Split(s[i + 1..], sep)
  }

  /** `Split` on a text holding the separator: the piece before the first one, then the split of the rest. */
  lemma SplitAt(s: string, sep: char)
    requires sep in s
    ensures Split(s, sep) == [s[..FirstIndex(s, sep)]] + Split(s[FirstIndex(s, sep) + 1..], sep)
  {
  }

  /**
   * No piece holds the separator; the first piece is the text before the first separator
   * (or the whole text), and the second starts right after it and runs up to the next
   * separator or the end.
   */
  lemma {:induction false} SplitPieces(s: string, sep: char)
    decreases |s|
    ensures forall k :: 0 <= k < |Split(s, sep)| ==> sep !in Split(s, sep)[k]
    ensures |Split(s, sep)| == 1 <==> sep !in s
    ensures Split(s, sep)[0] <= s
    ensures |Split(s, sep)[0]| == |s| || s[|Split(s, sep)[0]|] == sep
    ensures |Split(s, sep)| > 1 ==> Split(s, sep)[0] + [sep] + Split(s, sep)[1] <= s
    ensures |Split(s, sep)| > 1 ==>
              var n := |Split(s, sep)[0]| + 1 + |Split(s, sep)[1]|;
              n == |s| || s[n] == sep
  {
    if sep in s {
      var i := FirstIndex(s, sep);
      var rest := s[i + 1..];
      SplitPieces(rest, sep);
      var parts := Split(s, sep);
      var tail := Split(rest, sep);
      SplitAt(s, sep);
      assert parts[1..] == tail by { DropHead(s[..i], tail); }
      assert sep !in s[..i] by {
        forall k | 0 <= k < i ensures s[..i][k] != sep { }
      }
      Around(s, i);
      PrefixUnder(s[..i] + [sep], parts[1], rest);
      assert |parts[0]| == i && parts[1] == tail[0];
      assert |tail[0]| == |rest| || rest[|tail[0]|] == sep;
    }
  }

  /** Extending the same start by a prefix of c gives a prefix of the start extended by c. */
  lemma PrefixUnder<T>(a: seq<T>, b: seq<T>, c: seq<T>)
    requires b <= c
    ensures a + b <= a + c
  {
    assert (a + c)[..|a + b|] == a + b;
  }

  /** Dropping the head of a sequence built by prepending one element gives back the tail. */
  lemma DropHead<T>(x: T, xs: seq<T>)
    ensures ([x] + xs)[1..] == xs
  {
  }

  /** A sequence is its part before index i, the element at i, and its part after. */
  lemma Around<T>(s: seq<T>, i: nat)
    requires i < |s|
    ensures s == s[..i] + [s[i]] + s[i + 1..]
  {
    assert s[i..] == [s[i]] + s[i + 1..];
    assert s == s[..i] + s[i..];
  }

  /** `parts.join(sep)`. */
  function Join(parts: seq<string>, sep: char): string {
    if parts == [] then ""
    else if |parts| == 1 then parts[0]
    else parts[0] + [sep] + Join(parts[1..], sep)
  }

  /** Splitting loses nothing: joining the pieces back gives the text. */
  lemma {:induction false} JoinSplit(s: string, sep: char)
    decreases |s|
    ensures Join(Split(s, sep), sep) == s
  {
    if sep in s {
      var i := FirstIndex(s, sep);
      var rest := s[i + 1..];
      JoinSplit(rest, sep);
      var parts := Split(s, sep);
      var tail := Split(rest, sep);
      SplitAt(s, sep);
      assert parts[1..] == tail by { DropHead(s[..i], tail); }
      calc {
        Join(parts, sep);
        parts[0] + [sep] + Join(parts[1..], sep);
        s[..i] + [sep] + rest;
        { Around(s, i); }
        s;
      }
    }
  }

  /** Splitting a piece free of the separator glued to some text extends the first piece. */
  lemma SplitPrefix(p: string, t: string, sep: char)
    requires sep !in p
    ensures Split(p + t, sep) == [p + Split(t, sep)[0]] + Split(t, sep)[1..]
  {
    if sep !in t {
      assert sep !in p + t;
      assert Split(t, sep) == [t];
      assert Split(p + t, sep) == [p + t];
      assert [t][1..] == [];
    } else {
      var j := FirstIndex(t, sep);
      var s := p + t;
      assert s[|p| + j] == sep;
      assert forall k :: 0 <= k < |p| + j ==> s[k] != sep by {
        forall k | 0 <= k < |p| + j ensures s[k] != sep {
          if k < |p| { assert s[k] == p[k]; } else { assert s[k] == t[k - |p|]; }
        }
      }
      var i := FirstIndex(s, sep);
      assert i == |p| + j;
      assert s[..i] == p + t[..j];
      assert s[i + 1..] == t[j + 1..];
      var tail := Split(t[j + 1..], sep);
      var st := Split(t, sep);
      SplitAt(t, sep);
      DropHead(t[..j], tail);
      assert st[0] == t[..j] && st[1..] == tail;
      SplitAt(s, sep);
      assert Split(s[i + 1..], sep) == tail;
      assert Split(s, sep) == [p + st[0]] + st[1..];
    }
  }

  /** Joining pieces free of the separator and splitting again gives the pieces back. */
  lemma {:induction false} SplitJoin(parts: seq<string>, sep: char)
    requires |parts| >= 1
    requires forall i :: 0 <= i < |parts| ==> sep !in parts[i]
    ensures Split(Join(parts, sep), sep) == parts
  {
    if |parts| == 1 {
      SplitPrefix(parts[0], "", sep);
      assert parts[0] + "" == parts[0];
    } else {
      var rest := parts[1..];
      SplitJoin(rest, sep);
      var j := Join(rest, sep);
      assert Split([sep] + j, sep) == [""] + rest by {
        assert FirstIndex([sep] + j, sep) == 0;
        assert ([sep] + j)[..0] == "" && ([sep] + j)[1..] == j;
      }
      assert Join(parts, sep) == parts[0] + ([sep] + j);
      SplitPrefix(parts[0], [sep] + j, sep);
      assert parts[0] + "" == parts[0];
    }
  }

  /** One `key=value` token: `value` is `undefined` (None) when the token has no '='. */
  datatype Param = Param(key: string, value: Option<string>)

  /** One parameter word destructured into its first two '='-separated pieces: the key, and the value if any. */
  function ParseParam(token: string): (p: Param)
    ensures '=' !in p.key && p.key <= token
    ensures p.value.None? <==> '=' !in token
    ensures p.value.None? ==> p.key == token
    ensures p.value.Some? ==> '=' !in p.value.value && p.key + "=" + p.value.value <= token
    ensures p.value.Some? ==>
              var n := |p.key| + 1 + |p.value.value|;
              n == |token| || token[n] == '='
  {
    var pieces := Split(token, '=');
    SplitPieces(token, '=');
    if |pieces| > 1 then Param(pieces[0], Some(pieces[1]))
    else
      JoinSplit(token, '=');
      Param(pieces[0], None)
  }

  /** The `reduce`: every token's key bound to its value, a later token overwriting an earlier one. */
  function Collect(tokens: seq<string>): (acc: map<string, Option<string>>)
    ensures |tokens| > 0 ==> ParseParam(tokens[|tokens| - 1]).key in acc
  {
    if tokens == [] then map[]
    else
      var p := ParseParam(tokens[|tokens| - 1]);
      Collect(tokens[..|tokens| - 1])[p.key := p.value]
  }

  /** Later keys overwrite earlier ones: the fold of a concatenation is the right-biased union. */
  lemma {:induction false} CollectConcat(earlier: seq<string>, later: seq<string>)
    ensures Collect(earlier + later) == Collect(earlier) + Collect(later)
  {
    if later == [] {
      assert earlier + later == earlier;
    } else {
      var init, last := later[..|later| - 1], later[|later| - 1];
      var p := ParseParam(last);
      assert (earlier + later)[..|earlier + later| - 1] == earlier + init;
      assert (earlier + later)[|earlier + later| - 1] == last;
      assert Collect(earlier + later) == Collect(earlier + init)[p.key := p.value];
      assert Collect(later) == Collect(init)[p.key := p.value];
      CollectConcat(earlier, init);
      UnionThenUpdate(Collect(earlier), Collect(init), p.key, p.value);
    }
  }

  /** Updating a right-biased union updates its right operand. */
  lemma UnionThenUpdate<K, V>(a: map<K, V>, b: map<K, V>, k: K, v: V)
    ensures (a + b)[k := v] == a + b[k := v]
  {
  }

  /** The parameters of a `/set` message: every space-separated word after the command word. */
  function Tokens(text: string): (r: seq<string>)
    ensures forall k :: 0 <= k < |r| ==> ' ' !in r[k]
    ensures r == [] <==> ' ' !in text
  {
    SplitPieces(text, ' ');
    Split(text, ' ')[1..]
  }

  /**
   * The argument `/set` passes to `_setVndValue`: the `vnd` value left by the reduce, only
   * when it is a non-empty string (`if (vnd)`); none for a missing key, a bare `vnd` or `vnd=`.
   */
  function VndArgument(text: string): (r: Option<string>)
    ensures r.Some? ==> r.value != []
    ensures r.Some? ==> "vnd" in Collect(Tokens(text)) && Collect(Tokens(text))["vnd"] == r
    ensures r.Some? <==>
              "vnd" in Collect(Tokens(text)) && Collect(Tokens(text))["vnd"].Some?
              && Collect(Tokens(text))["vnd"].value != ""
  {
    var acc := Collect(Tokens(text));
    if "vnd" in acc && acc["vnd"].Some? && acc["vnd"].value != "" then acc["vnd"] else None
  }

  /** The argument is the value of one of the message's own `vnd=` words: no space, no '='. */
  lemma VndArgumentFromWord(text: string)
    requires VndArgument(text).Some?
    ensures exists t :: t in Tokens(text) && ParseParam(t) == Param("vnd", VndArgument(text))
    ensures ' ' !in VndArgument(text).value && '=' !in VndArgument(text).value
  {
    CollectValues(Tokens(text), "vnd");
    var t :| t in Tokens(text) && ParseParam(t) == Param("vnd", VndArgument(text));
    var words := Split(text, ' ');
    SplitPieces(text, ' ');
    var j :| 0 <= j < |words| - 1 && words[1..][j] == t;
    assert words[j + 1] == t;
    WordValue(t, VndArgument(text).value);
  }

  /** The value of a `vnd=` word lies inside the word. */
  lemma WordValue(t: string, v: string)
    requires ' ' !in t && ParseParam(t) == Param("vnd", Some(v))
    ensures ' ' !in v
  {
    assert "vnd" + "=" + v <= t;
    assert forall i :: 0 <= i < |v| ==> v[i] == t[4 + i];
  }

  /** Every value in the fold came from some token with that key. */
  lemma {:induction false} CollectValues(tokens: seq<string>, k: string)
    requires k in Collect(tokens)
    ensures exists t :: t in tokens && ParseParam(t) == Param(k, Collect(tokens)[k])
  {
    var init := tokens[..|tokens| - 1];
    var last := tokens[|tokens| - 1];
    if ParseParam(last).key != k {
      CollectValues(init, k);
      var t :| t in init && ParseParam(t) == Param(k, Collect(init)[k]);
      assert t in tokens;
    } else {
      assert last in tokens;
    }
  }

  /** The last `vnd=` among the parameters wins, whatever came before it. */
  lemma LastVndWins(text: string, before: seq<string>, value: string)
    requires Tokens(text) == before + ["vnd=" + value]
    requires value != [] && '=' !in value
    ensures VndArgument(text) == Some(value)
  {
    var tok := "vnd=" + value;
    SplitJoin(["vnd", value], '=');
    assert Join(["vnd", value], '=') == tok;
    assert ParseParam(tok) == Param("vnd", Some(value));
    CollectConcat(before, [tok]);
    assert [tok][..0] == [];
  }
}
