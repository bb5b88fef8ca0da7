/**
 The citation-key scan of the Crossref (Markdown) pipeline: Ruby's
 `String#scan(/@[\w|-]+/)` over the paper body. A match is `@` followed by
 one or more characters from `[A-Za-z0-9_|-]` (`\w` is ASCII-only here, and
 the `|` inside the brackets is a literal bar). Matches are taken left to
 right, each as long as possible, and the search resumes right after a match.
 */
module Citations {

  /** A character of the class `[\w|-]`. */
  predicate IsKeyChar(c: char)
  {
    ('A' <= c <= 'Z') || ('a' <= c <= 'z') || ('0' <= c <= '9') || c == '_' || c == '|' || c == '-'
  }

  /** The length of the longest prefix of `s` made of key characters. */
  function KeyRun(s: string): (n: nat)
    ensures n <= |s|
    ensures forall i :: 0 <= i < n ==> IsKeyChar(s[i])
    ensures n < |s| ==> !IsKeyChar(s[n])
  {
    if s != [] && IsKeyChar(s[0]) then 1 + KeyRun(s[1..]) else 0
  }

  /** A match of the pattern begins at the start of `s`. */
  predicate StartsKey(s: string)
  {
    |s| >= 2 && s[0] == '@' && IsKeyChar(s[1])
  }

  /** The longest match at the start of `s`. */
  function KeyAt(s: string): (key: string)
    requires StartsKey(s)
    ensures 2 <= |key| <= |s| && key == s[..|key|]
    ensures IsCitationKey(key)
    ensures |key| < |s| ==> !IsKeyChar(s[|key|])
  {
    s[..1 + KeyRun(s[1..])]
  }

  /** A well-formed citation key: `@` and then one or more key characters. */
  predicate IsCitationKey(t: string)
  {
    |t| >= 2 && t[0] == '@' && forall i :: 1 <= i < |t| ==> IsKeyChar(t[i])
  }

  /**
   `body.scan(/@[\w|-]+/)`: the matches from left to right, non-overlapping,
   each as long as possible, duplicates kept.
   */
  function Scan(body: string): (keys: seq<string>)
    ensures forall k :: k in keys ==> IsCitationKey(k)
    decreases |body|
  {
    if body == [] then []
    else if StartsKey(body) then
      var key := KeyAt(body);
      [key] + Scan(body[|key|..])
    else Scan(body[1..])
  }

  /**
   An independent reading of the pattern: at EVERY position where `@` is
   followed by a key character, the longest match starting there.
   */
  function MatchesAtEveryStart(body: string): (keys: seq<string>)
    decreases |body|
  {
    if body == [] then []
    else (if StartsKey(body) then [KeyAt(body)] else []) + MatchesAtEveryStart(body[1..])
  }

  /** No match starts inside a run of key characters, because `@` is not one. */
  lemma {:induction false} NoStartInsideRun(s: string, n: nat)
    requires n <= |s|
    requires forall i :: 0 <= i < n ==> IsKeyChar(s[i])
    ensures MatchesAtEveryStart(s) == MatchesAtEveryStart(s[n..])
    decreases n
  {
    if n > 0 {
      assert !StartsKey(s);
      assert s[1..][n - 1..] == s[n..];
      NoStartInsideRun(s[1..], n - 1);
    }
  }

  /**
   Resuming after a match misses nothing: the left-to-right scan finds a match
   at every position where one can start, so matches never overlap.
   */
  lemma {:induction false} ScanFindsEveryStart(body: string)
    ensures Scan(body) == MatchesAtEveryStart(body)
    decreases |body|
  {
    if body != [] {
      if StartsKey(body) {
        var key := KeyAt(body);
        var rest := body[1..];
        assert rest[|key| - 1..] == body[|key|..];
        NoStartInsideRun(rest, |key| - 1);
        ScanFindsEveryStart(body[|key|..]);
      } else {
        ScanFindsEveryStart(body[1..]);
      }
    }
  }

  /** A body without `@` has no citation keys. */
  lemma {:induction false} ScanWithoutAt(body: string)
    requires '@' !in body
    ensures Scan(body) == []
    decreases |body|
  {
    if body != [] {
      assert !StartsKey(body);
      ScanWithoutAt(body[1..]);
    }
  }

  /** How many `@` signs `s` holds. */
  function CountAt(s: string): (n: nat)
  {
    if s == [] then 0 else (if s[0] == '@' then 1 else 0) + CountAt(s[1..])
  }

  /** Every key uses up one `@` of the body, so there are at most as many keys as `@` signs. */
  lemma {:induction false} ScanAtMostOnePerAt(body: string)
    ensures |Scan(body)| <= CountAt(body)
    decreases |body|
  {
    if body != [] {
      ScanAtMostOnePerAt(body[1..]);
      if StartsKey(body) {
        var key := KeyAt(body);
        ScanFindsEveryStart(body);
        ScanFindsEveryStart(body[1..]);
        assert |Scan(body)| == 1 + |Scan(body[1..])|;
      }
    }
  }

  /** Scanning two pieces separately is scanning their concatenation, when the first piece ends in a character outside the pattern. */
  lemma {:induction false} ScanAppend(a: string, b: string)
    requires a != [] && a[|a| - 1] != '@' && !IsKeyChar(a[|a| - 1])
    ensures Scan(a + b) == Scan(a) + Scan(b)
  {
    EveryStartAppend(a, b);
    ScanFindsEveryStart(a + b);
    ScanFindsEveryStart(a);
    ScanFindsEveryStart(b);
  }

  lemma {:induction false} EveryStartAppend(a: string, b: string)
    requires a != [] && a[|a| - 1] != '@' && !IsKeyChar(a[|a| - 1])
    ensures MatchesAtEveryStart(a + b) == MatchesAtEveryStart(a) + MatchesAtEveryStart(b)
    decreases |a|
  {
    var s := a + b;
    assert s[1..] == a[1..] + b;
    if |a| == 1 {
      assert !StartsKey(s) && !StartsKey(a);
      assert a[1..] == [];
    } else {
      EveryStartAppend(a[1..], b);
      if StartsKey(a) {
        KeyWithinPiece(a, b);
      } else {
        assert !StartsKey(s);
      }
    }
  }

  lemma KeyWithinPiece(a: string, b: string)
    requires StartsKey(a) && !IsKeyChar(a[|a| - 1])
    ensures StartsKey(a + b) && KeyAt(a + b) == KeyAt(a)
  {
    var s := a + b;
    assert s[..|a|] == a;
    var n := KeyRun(a[1..]);
    KeyRunPrefix(a[1..], b);
  }

  lemma {:induction false} KeyRunPrefix(a: string, b: string)
    requires a != [] && !IsKeyChar(a[|a| - 1])
    ensures KeyRun(a + b) == KeyRun(a)
  {
    if |a| > 1 && IsKeyChar(a[0]) {
      assert (a + b)[1..] == a[1..] + b;
      KeyRunPrefix(a[1..], b);
    }
  }

  /** The longest match at the start of `@name` followed by a stop character is `@name`. */
  lemma KeyAtOneKey(name: string, stop: char)
    requires name != [] && forall i :: 0 <= i < |name| ==> IsKeyChar(name[i])
    requires !IsKeyChar(stop)
    ensures StartsKey(['@'] + name + [stop])
    ensures KeyAt(['@'] + name + [stop]) == ['@'] + name
  {
    var s := ['@'] + name + [stop];
    assert s[1..] == name + [stop];
    KeyRunPrefix2(name, stop);
    assert s[1] == name[0];
    assert s[..|name| + 1] == ['@'] + name;
  }

  /** A key followed by a character outside the pattern is scanned as exactly that key. */
  lemma ScanOneKey(name: string, stop: char)
    requires name != [] && forall i :: 0 <= i < |name| ==> IsKeyChar(name[i])
    requires stop != '@' && !IsKeyChar(stop)
    ensures Scan(['@'] + name + [stop]) == [['@'] + name]
  {
    var s := ['@'] + name + [stop];
    KeyAtOneKey(name, stop);
    assert s[|name| + 1..] == [stop];
    assert Scan([stop]) == [] by {
      assert !StartsKey([stop]);
      assert [stop][1..] == [];
    }
  }

  lemma {:induction false} KeyRunPrefix2(name: string, stop: char)
    requires forall i :: 0 <= i < |name| ==> IsKeyChar(name[i])
    requires !IsKeyChar(stop)
    ensures KeyRun(name + [stop]) == |name|
  {
    if name != [] {
      assert (name + [stop])[1..] == name[1..] + [stop];
      KeyRunPrefix2(name[1..], stop);
    }
  }

  /** Text without `@` that ends outside the pattern contributes no key and does not disturb what follows. */
  lemma ScanSkipsPlainText(text: string, rest: string)
    requires text != [] && '@' !in text && !IsKeyChar(text[|text| - 1])
    ensures Scan(text + rest) == Scan(rest)
  {
    ScanAppend(text, rest);
    ScanWithoutAt(text);
  }

  /** A key closed by a character outside the pattern is found, and scanning resumes after that character. */
  lemma ScanKeyThen(name: string, stop: char, rest: string)
    requires name != [] && forall i :: 0 <= i < |name| ==> IsKeyChar(name[i])
    requires stop != '@' && !IsKeyChar(stop)
    ensures Scan(['@'] + name + [stop] + rest) == [['@'] + name] + Scan(rest)
  {
    ScanAppend(['@'] + name + [stop], rest);
    ScanOneKey(name, stop);
  }

  lemma ScanExampleHead(afterFoo: string)
    ensures Scan("see " + (['@'] + "foo" + [' '] + afterFoo)) == ["@foo"] + Scan(afterFoo)
  {
    ScanSkipsPlainText("see ", ['@'] + "foo" + [' '] + afterFoo);
    ScanKeyThen("foo", ' ', afterFoo);
    assert ['@'] + "foo" == "@foo";
  }

  lemma ScanExampleTail()
    ensures Scan("and " + (['@'] + "bar-baz" + ['.'])) == ["@bar-baz"]
  {
    ScanSkipsPlainText("and ", ['@'] + "bar-baz" + ['.']);
    ScanOneKey("bar-baz", '.');
    assert ['@'] + "bar-baz" == "@bar-baz";
  }

  /** The two keys of `see @foo and @bar-baz.` are found, in order. */
  lemma ScanExample(body: string)
    requires body == "see @foo and @bar-baz."
    ensures Scan(body) == ["@foo", "@bar-baz"]
  {
    assert body == "see " + (['@'] + "foo" + [' '] + ("and " + (['@'] + "bar-baz" + ['.'])));
    ScanExampleHead("and " + (['@'] + "bar-baz" + ['.']));
    ScanExampleTail();
  }
}
