/** The string primitives the handlers rely on: ECMAScript's
    `String.prototype.trim` and `toLowerCase`, and JavaScript truthiness of an
    optional request field. */
module Text {
  import opened Wrappers

  /** ECMAScript WhiteSpace and LineTerminator code points: exactly what
      `trim` removes from both ends of a string. */
  predicate IsSpace(c: char) {
    || c == '\t' || c == '\n' || c == '\U{000B}' || c == '\U{000C}' || c == '\r'
    || c == ' ' || c == '\U{00A0}' || c == '\U{1680}'
    || ('\U{2000}' <= c <= '\U{200A}')
    || c == '\U{2028}' || c == '\U{2029}' || c == '\U{202F}' || c == '\U{205F}'
    || c == '\U{3000}' || c == '\U{FEFF}'
  }

  ghost predicate AllSpace(s: string) {
    forall k :: 0 <= k < |s| ==> IsSpace(s[k])
  }

  /** Drops the leading white space. */
  function TrimStart(s: string): (r: string)
    ensures |r| <= |s| && r == s[|s| - |r|..]
    ensures AllSpace(s[..|s| - |r|])
    ensures |r| > 0 ==> !IsSpace(r[0])
  {
    if |s| > 0 && IsSpace(s[0]) then TrimStart(s[1..]) else s
  }

  /** Drops the trailing white space. */
  function TrimEnd(s: string): (r: string)
    ensures |r| <= |s| && r == s[..|r|]
    ensures AllSpace(s[|r|..])
    ensures |r| > 0 ==> !IsSpace(r[|r| - 1])
  {
    if |s| > 0 && IsSpace(s[|s| - 1]) then TrimEnd(s[..|s| - 1]) else s
  }

  /** `s.trim()`: the longest slice of `s` that neither starts nor ends with
      white space, obtained by removing white space only. */
  function Trim(s: string): (r: string)
    ensures exists i :: 0 <= i && i + |r| <= |s| && r == s[i..i + |r|]
                        && AllSpace(s[..i]) && AllSpace(s[i + |r|..])
    ensures |r| > 0 ==> !IsSpace(r[0]) && !IsSpace(r[|r| - 1])
  {
    var t := TrimStart(s);
    var r := TrimEnd(t);
    TrimSlice(s, t, r);
    r
  }

  /** Where the result of trimming sits in the input: cutting a white-space
      prefix and then a white-space suffix leaves a slice between them. */
  lemma TrimSlice(s: string, t: string, r: string)
    requires |t| <= |s| && t == s[|s| - |t|..] && AllSpace(s[..|s| - |t|])
    requires |t| > 0 ==> !IsSpace(t[0])
    requires |r| <= |t| && r == t[..|r|] && AllSpace(t[|r|..])
    requires |r| > 0 ==> !IsSpace(r[|r| - 1])
    ensures exists i :: 0 <= i && i + |r| <= |s| && r == s[i..i + |r|]
                        && AllSpace(s[..i]) && AllSpace(s[i + |r|..])
    ensures |r| > 0 ==> !IsSpace(r[0]) && !IsSpace(r[|r| - 1])
  {
    var i := |s| - |t|;
    forall k | 0 <= k < |r|
      ensures r[k] == s[i + k]
    {
      assert r[k] == t[k];
    }
    assert s[i + |r|..] == t[|r|..];
    assert r == s[i..i + |r|];
    assert |r| > 0 ==> r[0] == t[0];
  }

  /** ASCII `toLowerCase` of one character. */
  function LowerChar(c: char): char {
    if 'A' <= c <= 'Z' then (c as int + 32) as char else c
  }

  /** `s.toLowerCase()`, character by character. */
  function Lower(s: string): (r: string)
    ensures |r| == |s|
    ensures forall k :: 0 <= k < |s| ==> r[k] == LowerChar(s[k])
  {
    if |s| == 0 then [] else [LowerChar(s[0])] + Lower(s[1..])
  }

  /** JavaScript truthiness of an optional string field: present and non-empty. */
  predicate Truthy(f: Option<string>) {
    f.Some? && f.value != []
  }

  /** `f?.trim()`: the trimmed field, absent when the field is absent. */
  function TrimField(f: Option<string>): (r: Option<string>)
    ensures r.Some? <==> f.Some?
    ensures r.Some? ==> |r.value| <= |f.value|
  {
    match f
    case None => None
    case Some(v) => Some(Trim(v))
  }

  /** `!f?.trim()` is false: the field holds at least one non-space character. */
  predicate Filled(f: Option<string>) {
    Truthy(TrimField(f))
  }

  // ---------------------------------------------------------------------------
  // Properties

  /** A string trims to nothing exactly when it is all white space. */
  lemma TrimEmptyIff(s: string)
    ensures Trim(s) == [] <==> AllSpace(s)
  {
    var t := TrimStart(s);
    if t == [] {
      assert s[..|s|] == s;
    } else {
      assert s[|s| - |t|] == t[0];
    }
  }

  /** A field is filled exactly when it is present and not all white space. */
  lemma FilledIff(f: Option<string>)
    ensures Filled(f) <==> f.Some? && !AllSpace(f.value)
  {
    if f.Some? {
      TrimEmptyIff(f.value);
    }
  }

  /** Lowercasing never turns white space into text or text into white space. */
  lemma LowerCharSpace(c: char)
    ensures IsSpace(LowerChar(c)) <==> IsSpace(c)
  {
  }

  lemma LowerTail(s: string)
    requires |s| > 0
    ensures Lower(s)[1..] == Lower(s[1..])
    ensures Lower(s)[..|s| - 1] == Lower(s[..|s| - 1])
  {
  }

  lemma {:induction false} TrimStartLower(s: string)
    ensures TrimStart(Lower(s)) == Lower(TrimStart(s))
  {
    if |s| > 0 {
      var l := Lower(s);
      assert l[0] == LowerChar(s[0]);
      LowerCharSpace(s[0]);
      if IsSpace(s[0]) {
        LowerTail(s);
        TrimStartLower(s[1..]);
        assert TrimStart(l) == TrimStart(l[1..]);
      } else {
        assert TrimStart(l) == l;
      }
    }
  }

  lemma {:induction false} TrimEndLower(s: string)
    ensures TrimEnd(Lower(s)) == Lower(TrimEnd(s))
  {
    if |s| > 0 {
      var l := Lower(s);
      var n := |s| - 1;
      assert l[n] == LowerChar(s[n]);
      LowerCharSpace(s[n]);
      if IsSpace(s[n]) {
        LowerTail(s);
        TrimEndLower(s[..n]);
        assert TrimEnd(l) == TrimEnd(l[..n]);
      } else {
        assert TrimEnd(l) == l;
      }
    }
  }

  /** Trimming and lowercasing commute. */
  lemma TrimLower(s: string)
    ensures Trim(Lower(s)) == Lower(Trim(s))
  {
    TrimStartLower(s);
    TrimEndLower(TrimStart(s));
  }

  /** Lowercasing twice is lowercasing once. */
  lemma LowerIdempotent(s: string)
    ensures Lower(Lower(s)) == Lower(s)
  {
  }

  lemma {:induction false} TrimStartPadded(a: string, s: string)
    requires AllSpace(a)
    ensures TrimStart(a + s) == TrimStart(s)
  {
    if |a| > 0 {
      assert (a + s)[1..] == a[1..] + s;
      TrimStartPadded(a[1..], s);
    } else {
      assert a + s == s;
    }
  }

  lemma {:induction false} TrimEndPadded(s: string, b: string)
    requires AllSpace(b)
    ensures TrimEnd(s + b) == TrimEnd(s)
  {
    if |b| > 0 {
      assert (s + b)[..|s + b| - 1] == s + b[..|b| - 1];
      TrimEndPadded(s, b[..|b| - 1]);
    } else {
      assert s + b == s;
    }
  }

  /** Trailing white space survives `TrimStart` untouched unless nothing else is left. */
  lemma {:induction false} TrimStartAppend(s: string, b: string)
    ensures TrimStart(s) == [] ==> TrimStart(s + b) == TrimStart(b)
    ensures TrimStart(s) != [] ==> TrimStart(s + b) == TrimStart(s) + b
  {
    if |s| > 0 {
      assert (s + b)[0] == s[0];
      if IsSpace(s[0]) {
        assert (s + b)[1..] == s[1..] + b;
        TrimStartAppend(s[1..], b);
      }
    } else {
      assert s + b == b;
    }
  }

  /** White space around a string does not change its trimmed form. */
  lemma TrimPadded(a: string, s: string, b: string)
    requires AllSpace(a) && AllSpace(b)
    ensures Trim(a + s + b) == Trim(s)
  {
    assert a + s + b == a + (s + b);
    TrimStartPadded(a, s + b);
    TrimStartAppend(s, b);
    if TrimStart(s) == [] {
      TrimStartPadded(b, []);
      assert b + [] == b;
      assert TrimStart(b) == [];
    } else {
      TrimEndPadded(TrimStart(s), b);
    }
  }

  /** Trimming twice is trimming once. */
  lemma TrimIdempotent(s: string)
    ensures Trim(Trim(s)) == Trim(s)
  {
    var r := Trim(s);
    if |r| > 0 {
      assert TrimStart(r) == r;
      assert TrimEnd(r) == r;
    }
  }
}
