/** `zabbix_key_to_signifai_key`: a Zabbix macro name such as
    `NODE.NAME` becomes the SignifAI attribute suffix `node/name` —
    lower-cased, dots to slashes, spaces to underscores, parentheses
    dropped. */
module KeyRewrite {
  import opened Text

  /** `s.replace(c, t)` for a one-character pattern: every `c` in `s`
      becomes `t`. */
  function Replace(s: string, c: char, t: string): (r: string)
    ensures c !in t ==> c !in r
    ensures forall x :: x in r ==> x in s || x in t
  {
    if |s| == 0 then ""
    else (if s[0] == c then t else [s[0]]) + Replace(s[1..], c, t)
  }

  /** The `replacements` list, applied in order. */
  const Replacements: seq<(char, string)> := [('.', "/"), (' ', "_"), ('(', ""), (')', "")]

  /** The `for rep in replacements` loop over the first `n` replacements. */
  function ReplaceAll(s: string, reps: seq<(char, string)>, n: nat): string
    requires n <= |reps|
  {
    if n == 0 then s else Replace(ReplaceAll(s, reps, n - 1), reps[n - 1].0, reps[n - 1].1)
  }

  /** `zabbix_key_to_signifai_key(k)`: each character of the key is
      rewritten on its own, and what comes out has no dot, space,
      parenthesis or upper-case letter left. */
  function ZabbixKeyToSignifaiKey(k: string): (r: string)
    ensures r == Rewrite(k)
    ensures Rewritten(r)
  {
    ReplacementsRewriteEachChar(k);
    RewriteIsRewritten(k);
    ReplaceAll(Lower(k), Replacements, |Replacements|)
  }

  /** What one character of the key turns into. */
  function RewriteChar(c: char): string {
    if c == '.' then "/"
    else if c == ' ' then "_"
    else if c == '(' || c == ')' then ""
    else [LowerChar(c)]
  }

  /** The rewrite character by character: an independent statement of
      what the four replacements achieve together. */
  function Rewrite(k: string): string {
    if |k| == 0 then "" else RewriteChar(k[0]) + Rewrite(k[1..])
  }

  /** A string the rewrite leaves alone: no dot, space or parenthesis and
      no upper-case letter. */
  predicate Rewritten(s: string) {
    forall i :: 0 <= i < |s| ==> s[i] !in ".() " && !('A' <= s[i] <= 'Z')
  }

  lemma {:induction false} ReplaceAppend(a: string, b: string, c: char, t: string)
    ensures Replace(a + b, c, t) == Replace(a, c, t) + Replace(b, c, t)
    decreases |a|
  {
    if |a| > 0 {
      assert (a + b)[1..] == a[1..] + b;
      ReplaceAppend(a[1..], b, c, t);
    } else {
      assert a + b == b;
    }
  }

  lemma ReplaceOne(x: char, c: char, t: string)
    ensures Replace([x], c, t) == if x == c then t else [x]
  {
    assert [x][1..] == [];
  }

  /** Any run of single-character replacements distributes over
      concatenation. */
  lemma {:induction false} ReplaceAllAppend(a: string, b: string, reps: seq<(char, string)>, n: nat)
    requires n <= |reps|
    ensures ReplaceAll(a + b, reps, n) == ReplaceAll(a, reps, n) + ReplaceAll(b, reps, n)
  {
    if n > 0 {
      ReplaceAllAppend(a, b, reps, n - 1);
      ReplaceAllAppendStep(a, b, reps, n);
    }
  }

  lemma ReplaceAllAppendStep(a: string, b: string, reps: seq<(char, string)>, n: nat)
    requires 0 < n <= |reps|
    requires ReplaceAll(a + b, reps, n - 1) == ReplaceAll(a, reps, n - 1) + ReplaceAll(b, reps, n - 1)
    ensures ReplaceAll(a + b, reps, n) == ReplaceAll(a, reps, n) + ReplaceAll(b, reps, n)
  {
    ReplaceAppend(ReplaceAll(a, reps, n - 1), ReplaceAll(b, reps, n - 1), reps[n - 1].0, reps[n - 1].1);
  }

  lemma {:induction false} ReplaceAllEmpty(reps: seq<(char, string)>, n: nat)
    requires n <= |reps|
    ensures ReplaceAll("", reps, n) == ""
  {
    if n > 0 {
      ReplaceAllEmpty(reps, n - 1);
    }
  }

  /** On one lower-cased character the four replacements give that
      character's rewrite. */
  lemma ReplaceAllChar(c: char)
    ensures ReplaceAll([LowerChar(c)], Replacements, 4) == RewriteChar(c)
  {
    var r := Replacements;
    var x := LowerChar(c);
    ReplaceOne(x, '.', "/");
    if x == '.' {
      assert ReplaceAll([x], r, 1) == "/";
      ReplaceOne('/', ' ', "_");
      assert ReplaceAll([x], r, 2) == "/";
      ReplaceOne('/', '(', "");
      assert ReplaceAll([x], r, 3) == "/";
      ReplaceOne('/', ')', "");
    } else {
      assert ReplaceAll([x], r, 1) == [x];
      ReplaceOne(x, ' ', "_");
      if x == ' ' {
        assert ReplaceAll([x], r, 2) == "_";
        ReplaceOne('_', '(', "");
        assert ReplaceAll([x], r, 3) == "_";
        ReplaceOne('_', ')', "");
      } else {
        assert ReplaceAll([x], r, 2) == [x];
        ReplaceOne(x, '(', "");
        if x == '(' {
          assert ReplaceAll([x], r, 3) == "";
          assert Replace("", ')', "") == "";
        } else {
          assert ReplaceAll([x], r, 3) == [x];
          ReplaceOne(x, ')', "");
        }
      }
    }
  }

  lemma LowerCons(k: string)
    requires |k| > 0
    ensures Lower(k) == [LowerChar(k[0])] + Lower(k[1..])
  {
  }

  /** The key conversion rewrites each character on its own: the four
      sequential `str.replace` calls after `lower()` never act on each
      other's output. */
  lemma {:induction false} ReplacementsRewriteEachChar(k: string)
    ensures ReplaceAll(Lower(k), Replacements, |Replacements|) == Rewrite(k)
    decreases |k|
  {
    if |k| == 0 {
      assert Lower(k) == "";
      ReplaceAllEmpty(Replacements, 4);
    } else {
      LowerCons(k);
      ReplaceAllAppend([LowerChar(k[0])], Lower(k[1..]), Replacements, 4);
      ReplaceAllChar(k[0]);
      ReplacementsRewriteEachChar(k[1..]);
    }
  }

  lemma {:induction false} RewriteIsRewritten(k: string)
    ensures Rewritten(Rewrite(k))
    decreases |k|
  {
    if |k| > 0 {
      RewriteIsRewritten(k[1..]);
      var h, t := RewriteChar(k[0]), Rewrite(k[1..]);
      assert forall i :: 0 <= i < |h| ==> h[i] !in ".() " && !('A' <= h[i] <= 'Z');
      assert forall i :: 0 <= i < |t| ==> (h + t)[|h| + i] == t[i];
    }
  }

  lemma {:induction false} RewriteFixes(s: string)
    requires Rewritten(s)
    ensures Rewrite(s) == s
    decreases |s|
  {
    if |s| > 0 {
      assert Rewritten(s[1..]) by {
        forall i | 0 <= i < |s[1..]| ensures s[1..][i] !in ".() " && !('A' <= s[1..][i] <= 'Z') {
          assert s[1..][i] == s[i + 1];
        }
      }
      RewriteFixes(s[1..]);
      assert s == [s[0]] + s[1..];
    }
  }

  /** Converting a converted key changes nothing. */
  lemma KeyIdempotent(k: string)
    ensures ZabbixKeyToSignifaiKey(ZabbixKeyToSignifaiKey(k)) == ZabbixKeyToSignifaiKey(k)
  {
    var r := ZabbixKeyToSignifaiKey(k);
    RewriteFixes(r);
  }

  lemma RewriteAppend(a: string, b: string)
    ensures Rewrite(a + b) == Rewrite(a) + Rewrite(b)
    decreases |a|
  {
    if |a| > 0 {
      assert (a + b)[1..] == a[1..] + b;
      RewriteAppend(a[1..], b);
    } else {
      assert a + b == b;
    }
  }

  /** No dot, space or parenthesis: a word the rewrite only lower-cases. */
  predicate Plain(w: string) {
    forall i :: 0 <= i < |w| ==> w[i] !in ".() "
  }

  /** A plain word is only lower-cased. */
  lemma {:induction false} RewritePlain(w: string)
    requires Plain(w)
    ensures Rewrite(w) == Lower(w)
    decreases |w|
  {
    if |w| > 0 {
      RewritePlain(w[1..]);
      LowerCons(w);
    }
  }

  /** The rewrite of a separator between two pieces. */
  lemma RewriteSep(a: string, c: char, b: string)
    ensures Rewrite(a + [c] + b) == Rewrite(a) + RewriteChar(c) + Rewrite(b)
  {
    assert a + [c] + b == a + ([c] + b);
    RewriteAppend(a, [c] + b);
    RewriteAppend([c], b);
    assert Rewrite([c]) == RewriteChar(c) by {
      assert [c][1..] == [];
    }
  }

  /** `A.B` with plain words `A` and `B` becomes `a/b`. */
  lemma KeyOfDotted(a: string, b: string)
    requires Plain(a) && Plain(b)
    ensures ZabbixKeyToSignifaiKey(a + ['.'] + b) == Lower(a) + "/" + Lower(b)
  {
    RewriteSep(a, '.', b);
    RewritePlain(a);
    RewritePlain(b);
  }

  /** `K B C` with plain words `B` and `C` becomes the conversion of `K`
      followed by `_b_c`. */
  lemma KeyOfSpaced(a: string, b: string, c: string)
    requires Plain(b) && Plain(c)
    ensures ZabbixKeyToSignifaiKey(a + [' '] + b + [' '] + c)
         == ZabbixKeyToSignifaiKey(a) + "_" + Lower(b) + "_" + Lower(c)
  {
    RewriteSep(a + [' '] + b, ' ', c);
    RewriteSep(a, ' ', b);
    RewritePlain(b);
    RewritePlain(c);
  }

  /** The words of the extra-attributes test are plain, and lower-case as
      expected. */
  lemma TestWords(w1: string, w2: string, w3: string, w4: string)
    requires w1 == "AWESOME" && w2 == "ATTR" && w3 == "WITH" && w4 == "SPACES"
    ensures Plain(w1) && Plain(w2) && Plain(w3) && Plain(w4)
    ensures Lower(w1) == "awesome" && Lower(w2) == "attr" && Lower(w3) == "with" && Lower(w4) == "spaces"
  {
    forall i | 0 <= i < 7 ensures Lower(w1)[i] == "awesome"[i] {}
    forall i | 0 <= i < 4 ensures Lower(w2)[i] == "attr"[i] {}
    forall i | 0 <= i < 4 ensures Lower(w3)[i] == "with"[i] {}
    forall i | 0 <= i < 6 ensures Lower(w4)[i] == "spaces"[i] {}
  }

  /** `AWESOME.ATTR` becomes `awesome/attr`, as the extra-attributes test
      expects. */
  lemma KeyExampleDotted(k: string)
    requires k == "AWESOME.ATTR"
    ensures ZabbixKeyToSignifaiKey(k) == "awesome/attr"
  {
    var w1, w2 := "AWESOME", "ATTR";
    TestWords(w1, w2, "WITH", "SPACES");
    assert k == w1 + ['.'] + w2;
    KeyOfDotted(w1, w2);
  }

  /** `AWESOME.ATTR WITH SPACES` becomes `awesome/attr_with_spaces`, as the
      extra-attributes test expects. */
  lemma KeyExampleSpaced(k: string)
    requires k == "AWESOME.ATTR WITH SPACES"
    ensures ZabbixKeyToSignifaiKey(k) == "awesome/attr_with_spaces"
  {
    var k1, w3, w4 := "AWESOME.ATTR", "WITH", "SPACES";
    TestWords("AWESOME", "ATTR", w3, w4);
    assert k == k1 + [' '] + w3 + [' '] + w4;
    KeyExampleDotted(k1);
    KeyOfSpaced(k1, w3, w4);
    SpacedSpelling(ZabbixKeyToSignifaiKey(k1), Lower(w3), Lower(w4));
  }

  lemma SpacedSpelling(a: string, b: string, c: string)
    requires a == "awesome/attr" && b == "with" && c == "spaces"
    ensures a + "_" + b + "_" + c == "awesome/attr_with_spaces"
  {
  }
}
