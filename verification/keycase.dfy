/**
 * The key rewrites of `toSnake` and `toCamel` (src/utils/utilities.ts): camelCase
 * property names become snake_case column names and back.
 */
module KeyCase {
  import opened Chars

  /** What `toSnake` puts in place of one character. */
  function SnakeChar(c: char): string {
    if IsUpper(c) then ['_', ToLower(c)] else [c]
  }

  predicate NoUpper(k: string) {
    forall i :: 0 <= i < |k| ==> !IsUpper(k[i])
  }

  function CountUpper(k: string): nat {
    if |k| == 0 then 0 else (if IsUpper(k[0]) then 1 else 0) + CountUpper(k[1..])
  }

  /** `toCamel`'s pattern `_([a-z])` matches at index `i` of `k`. */
  predicate CamelMatchAt(k: string, i: int) {
    0 <= i && i + 1 < |k| && k[i] == '_' && IsLower(k[i + 1])
  }

  /** `toCamel`'s pattern matches nowhere in `k`. */
  predicate NoCamelMatch(k: string) {
    forall i :: 0 <= i < |k| ==> !CamelMatchAt(k, i)
  }

  /** `toSnake`'s key: every capital replaced by an underscore and the small letter. */
  function SnakeKey(k: string): (r: string)
    ensures NoUpper(r)
    ensures |r| == |k| + CountUpper(k)
  {
    if |k| == 0 then "" else SnakeChar(k[0]) + SnakeKey(k[1..])
  }

  /**
   * `toCamel`'s key: every underscore before a small letter dropped, the letter capitalised.
   * The global replace scans left to right and resumes after each match, so matches never
   * overlap.
   */
  function CamelKey(k: string): (r: string)
    ensures |r| <= |k|
    ensures NoCamelMatch(r)
    ensures |r| > 0 && IsLower(r[0]) ==> r[0] == k[0]
  {
    if |k| >= 2 && k[0] == '_' && IsLower(k[1]) then
      var rest := CamelKey(k[2..]);
      assert NoCamelMatch([ToUpper(k[1])] + rest) by {
        ConsNoCamelMatch(ToUpper(k[1]), rest);
      }
      [ToUpper(k[1])] + rest
    else if |k| == 0 then
      ""
    else
      var rest := CamelKey(k[1..]);
      assert NoCamelMatch([k[0]] + rest) by {
        ConsNoCamelMatch(k[0], rest);
      }
      [k[0]] + rest
  }

  /** Putting `c` in front of a match-free key adds no match unless it is `_` before a small letter. */
  lemma ConsNoCamelMatch(c: char, rest: string)
    requires NoCamelMatch(rest)
    requires c == '_' ==> |rest| == 0 || !IsLower(rest[0])
    ensures NoCamelMatch([c] + rest)
  {
    var r := [c] + rest;
    forall i | 0 <= i < |r|
      ensures !CamelMatchAt(r, i)
    {
      if i > 0 {
        assert r[i] == rest[i - 1];
        assert !CamelMatchAt(rest, i - 1);
      }
    }
  }

  /** `toSnake`'s rewrite works character by character: it distributes over concatenation. */
  lemma {:induction false} SnakeKeyConcat(a: string, b: string)
    ensures SnakeKey(a + b) == SnakeKey(a) + SnakeKey(b)
    decreases |a|
  {
    if |a| == 0 {
      assert a + b == b;
    } else {
      var ab := a + b;
      assert ab[0] == a[0] && ab[1..] == a[1..] + b;
      SnakeKeyConcat(a[1..], b);
      assert SnakeKey(ab) == SnakeChar(a[0]) + (SnakeKey(a[1..]) + SnakeKey(b));
    }
  }

  /** A key is left alone by `toSnake` exactly when it has no capital letter. */
  lemma {:induction false} SnakeKeyFixed(k: string)
    ensures SnakeKey(k) == k <==> NoUpper(k)
    decreases |k|
  {
    if |k| > 0 && NoUpper(k) {
      SnakeKeyFixed(k[1..]);
    }
  }

  /** A key is left alone by `toCamel` exactly when `_` is never followed by a small letter. */
  lemma {:induction false} CamelKeyFixed(k: string)
    ensures CamelKey(k) == k <==> NoCamelMatch(k)
    decreases |k|
  {
    if |k| > 0 && NoCamelMatch(k) {
      assert !CamelMatchAt(k, 0);
      assert NoCamelMatch(k[1..]) by {
        forall i | 0 <= i < |k[1..]|
          ensures !CamelMatchAt(k[1..], i)
        {
          assert !CamelMatchAt(k, i + 1);
        }
      }
      CamelKeyFixed(k[1..]);
    }
  }

  /** Converting twice is converting once, in both directions. */
  lemma Idempotent(k: string)
    ensures SnakeKey(SnakeKey(k)) == SnakeKey(k)
    ensures CamelKey(CamelKey(k)) == CamelKey(k)
  {
    SnakeKeyFixed(SnakeKey(k));
    CamelKeyFixed(CamelKey(k));
  }

  /** `toCamel` undoes `toSnake` on a key exactly when the key has no `_` before a small letter. */
  lemma {:induction false} CamelOfSnake(k: string)
    ensures CamelKey(SnakeKey(k)) == k <==> NoCamelMatch(k)
    decreases |k|
  {
    if |k| > 0 && NoCamelMatch(k) {
      var c, t := k[0], k[1..];
      assert NoCamelMatch(t) by {
        forall i | 0 <= i < |t|
          ensures !CamelMatchAt(t, i)
        {
          assert !CamelMatchAt(k, i + 1);
        }
      }
      CamelOfSnake(t);
      var s := SnakeKey(t);
      if IsUpper(c) {
        assert SnakeKey(k) == ['_', ToLower(c)] + s;
        assert (['_', ToLower(c)] + s)[2..] == s;
        CaseInverse(c);
      } else if c != '_' {
        assert SnakeKey(k) == [c] + s;
        assert ([c] + s)[1..] == s;
      } else {
        assert !CamelMatchAt(k, 0);
        assert SnakeKey(k) == [c] + s;
        assert ([c] + s)[1..] == s;
        assert |s| > 0 ==> !IsLower(s[0]) by {
          if |s| > 0 {
            assert s == SnakeChar(t[0]) + SnakeKey(t[1..]);
          }
        }
      }
    }
  }

  /** `toSnake` undoes `toCamel` on a key exactly when the key has no capital letter. */
  lemma {:induction false} SnakeOfCamel(k: string)
    ensures SnakeKey(CamelKey(k)) == k <==> NoUpper(k)
    decreases |k|
  {
    if |k| > 0 && NoUpper(k) {
      if |k| >= 2 && k[0] == '_' && IsLower(k[1]) {
        assert NoUpper(k[2..]) by {
          assert forall i :: 0 <= i < |k| - 2 ==> k[2..][i] == k[i + 2];
        }
        SnakeOfCamel(k[2..]);
        SnakeOfCamelMatch(k);
      } else {
        assert NoUpper(k[1..]) by {
          assert forall i :: 0 <= i < |k| - 1 ==> k[1..][i] == k[i + 1];
        }
        SnakeOfCamel(k[1..]);
        SnakeOfCamelPlain(k);
      }
    }
  }

  /** The step of `SnakeOfCamel` where the key starts with `_` and a small letter. */
  lemma SnakeOfCamelMatch(k: string)
    requires |k| >= 2 && k[0] == '_' && IsLower(k[1])
    requires SnakeKey(CamelKey(k[2..])) == k[2..]
    ensures SnakeKey(CamelKey(k)) == k
  {
    var u, rest := ToUpper(k[1]), CamelKey(k[2..]);
    assert CamelKey(k) == [u] + rest;
    assert ([u] + rest)[1..] == rest;
    assert SnakeKey([u] + rest) == SnakeChar(u) + SnakeKey(rest);
    CaseInverse(k[1]);
    assert k == ['_', k[1]] + k[2..];
  }

  /** The step of `SnakeOfCamel` where the first character is kept. */
  lemma SnakeOfCamelPlain(k: string)
    requires |k| > 0 && !IsUpper(k[0])
    requires !(|k| >= 2 && k[0] == '_' && IsLower(k[1]))
    requires SnakeKey(CamelKey(k[1..])) == k[1..]
    ensures SnakeKey(CamelKey(k)) == k
  {
    var rest := CamelKey(k[1..]);
    assert CamelKey(k) == [k[0]] + rest;
    assert ([k[0]] + rest)[1..] == rest;
    assert SnakeKey([k[0]] + rest) == SnakeChar(k[0]) + SnakeKey(rest);
  }

  /**
   * On every key, `toSnake` of `toCamel`'s key is `toSnake` of the key itself: the two
   * rewrites spell a capital and `_` before its small letter alike.
   */
  lemma {:induction false} SnakeOfCamelAll(k: string)
    ensures SnakeKey(CamelKey(k)) == SnakeKey(k)
    decreases |k|
  {
    if |k| >= 2 && k[0] == '_' && IsLower(k[1]) {
      SnakeOfCamelAll(k[2..]);
      SnakeOfCamelAllMatch(k);
    } else if |k| > 0 {
      SnakeOfCamelAll(k[1..]);
      var rest := CamelKey(k[1..]);
      assert CamelKey(k) == [k[0]] + rest;
      assert ([k[0]] + rest)[1..] == rest;
    }
  }

  /** The step of `SnakeOfCamelAll` where the key starts with `_` and a small letter. */
  lemma SnakeOfCamelAllMatch(k: string)
    requires |k| >= 2 && k[0] == '_' && IsLower(k[1])
    requires SnakeKey(CamelKey(k[2..])) == SnakeKey(k[2..])
    ensures SnakeKey(CamelKey(k)) == SnakeKey(k)
  {
    var u, rest := ToUpper(k[1]), CamelKey(k[2..]);
    assert CamelKey(k) == [u] + rest;
    assert ([u] + rest)[1..] == rest;
    assert SnakeKey([u] + rest) == SnakeChar(u) + SnakeKey(rest);
    CaseInverse(k[1]);
    assert k[1..][1..] == k[2..];
    assert SnakeKey(k) == ['_', k[1]] + SnakeKey(k[2..]);
  }

  lemma NoCamelMatchTail(k: string)
    requires |k| > 0 && NoCamelMatch(k)
    ensures NoCamelMatch(k[1..])
  {
    forall i | 0 <= i < |k| - 1
      ensures !CamelMatchAt(k[1..], i)
    {
      assert !CamelMatchAt(k, i + 1);
    }
  }

  /**
   * In the snake key of a match-free key, an `_` that is the key's own first character is
   * never followed by a small letter.
   */
  lemma PlainUnderscore(b: string)
    requires NoCamelMatch(b) && |b| > 0 && !IsUpper(b[0])
    requires |SnakeKey(b)| >= 2 && SnakeKey(b)[0] == '_'
    ensures !IsLower(SnakeKey(b)[1])
  {
    var t := b[1..];
    assert SnakeKey(b) == [b[0]] + SnakeKey(t);
    assert |t| > 0;
    assert SnakeKey(t) == SnakeChar(t[0]) + SnakeKey(t[1..]);
    assert !CamelMatchAt(b, 0);
  }

  /** On keys free of `_` before a small letter, `toSnake`'s rewrite is one-to-one. */
  lemma {:induction false} SnakeKeyInjective(a: string, b: string)
    requires NoCamelMatch(a) && NoCamelMatch(b)
    requires SnakeKey(a) == SnakeKey(b)
    ensures a == b
    decreases |a|
  {
    if |a| > 0 && |b| > 0 {
      var x := SnakeKey(a);
      var ta, tb := SnakeKey(a[1..]), SnakeKey(b[1..]);
      assert x == SnakeChar(a[0]) + ta;
      assert x == SnakeChar(b[0]) + tb;
      if IsUpper(a[0]) && !IsUpper(b[0]) {
        PlainUnderscore(b);
        assert false;
      } else if !IsUpper(a[0]) && IsUpper(b[0]) {
        PlainUnderscore(a);
        assert false;
      } else {
        if IsUpper(a[0]) {
          assert ta == x[2..] == tb;
          CaseInverse(a[0]);
          CaseInverse(b[0]);
        } else {
          assert ta == x[1..] == tb;
        }
        NoCamelMatchTail(a);
        NoCamelMatchTail(b);
        SnakeKeyInjective(a[1..], b[1..]);
        assert a == [a[0]] + a[1..];
        assert b == [b[0]] + b[1..];
      }
    }
  }

  /**
   * `toCamel`'s key is the one key free of `_` before a small letter whose snake_case form
   * is that of the input: this fixes the rewrite on every key, mixed ones like `a_bC` included.
   */
  lemma CamelKeyUnique(k: string, r: string)
    requires NoCamelMatch(r) && SnakeKey(r) == SnakeKey(k)
    ensures r == CamelKey(k)
  {
    SnakeOfCamelAll(k);
    SnakeKeyInjective(r, CamelKey(k));
  }

  /** The round trip the API relies on: a key with no underscore survives snake then camel. */
  lemma UnderscoreFreeRoundTrip(k: string)
    requires '_' !in k
    ensures CamelKey(SnakeKey(k)) == k
  {
    CamelOfSnake(k);
  }
}
