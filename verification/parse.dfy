/**
 * `parse`: trim the text, recognise the two infinity tokens, and otherwise
 * defer to the host's decimal parser, turning its failure into NaN.
 *
 * The decimal parser (`parse_float`) is not part of this model; it is passed
 * in as a function from text to a result holding a host number, which may be
 * an infinity.
 */
module Parsing {
  import opened IeeeFloat

  /** The characters `String.prototype.trim` removes: the ECMAScript
      WhiteSpace code points (tab, vertical tab, form feed, no-break space,
      byte order mark and the Unicode space separators) and the
      LineTerminator code points (line feed, carriage return, line and
      paragraph separators).

      A Dafny string is a sequence of Unicode scalar values, while a
      JavaScript string is a sequence of UTF-16 code units, so a text with a
      lone surrogate has no counterpart here. Trimming is the same on both
      views: every trimmable code point is a single non-surrogate unit of
      the Basic Multilingual Plane. */
  predicate IsTrimmable(c: char)
  {
    var n := c as int;
    n == 0x09 || n == 0x0A || n == 0x0B || n == 0x0C || n == 0x0D || n == 0x20
    || n == 0xA0 || n == 0x1680 || (0x2000 <= n <= 0x200A)
    || n == 0x2028 || n == 0x2029 || n == 0x202F || n == 0x205F
    || n == 0x3000 || n == 0xFEFF
  }

  /** Only trimmable characters. */
  predicate AllTrimmable(s: string)
  {
    forall k :: 0 <= k < |s| ==> IsTrimmable(s[k])
  }

  /** Drops the leading trimmable characters: the result is the longest
      suffix of s that does not start with one. */
  function TrimStart(s: string): (t: string)
    ensures |t| <= |s| && t == s[|s| - |t|..]
    ensures AllTrimmable(s[..|s| - |t|])
    ensures t != [] ==> !IsTrimmable(t[0])
  {
    if |s| > 0 && IsTrimmable(s[0]) then
      var t := TrimStart(s[1..]);
      assert s[..|s| - |t|] == [s[0]] + s[1..][..|s| - 1 - |t|];
      TrimmableCons(s[0], s[1..][..|s| - 1 - |t|]);
      t
    else s
  }

  /** A trimmable character in front of trimmable characters. */
  lemma TrimmableCons(c: char, rest: string)
    requires IsTrimmable(c) && AllTrimmable(rest)
    ensures AllTrimmable([c] + rest)
  {
    assert forall k :: 1 <= k <= |rest| ==> ([c] + rest)[k] == rest[k - 1];
  }

  /** A prefix of trimmable characters. */
  lemma TrimmablePrefix(s: string, j: int)
    requires AllTrimmable(s) && 0 <= j <= |s|
    ensures AllTrimmable(s[..j])
  {
    assert forall k :: 0 <= k < j ==> s[..j][k] == s[k];
  }

  /** Drops the trailing trimmable characters: the result is the longest
      prefix of s that does not end with one. */
  function TrimEnd(s: string): (t: string)
    ensures |t| <= |s| && t == s[..|t|]
    ensures AllTrimmable(s[|t|..])
    ensures t != [] ==> !IsTrimmable(t[|t| - 1])
  {
    if |s| > 0 && IsTrimmable(s[|s| - 1]) then
      var t := TrimEnd(s[..|s| - 1]);
      assert s[|t|..] == s[..|s| - 1][|t|..] + [s[|s| - 1]];
      t
    else s
  }

  /** `s.trim()`: both ends. The result is the block of s that starts after
      the leading whitespace, has only whitespace after it, and neither
      starts nor ends with whitespace. */
  function Trim(s: string): (t: string)
    ensures |t| <= |s|
    ensures t != [] ==> !IsTrimmable(t[0]) && !IsTrimmable(t[|t| - 1])
  {
    var u := TrimStart(s);
    var t := TrimEnd(u);
    TrimFirst(u, t);
    t
  }

  /** t is the block of s from index i on, with only whitespace before and
      after it. */
  predicate PaddedBlock(s: string, i: int, t: string)
  {
    0 <= i && i + |t| <= |s| && t == s[i..i + |t|]
    && AllTrimmable(s[..i]) && AllTrimmable(s[i + |t|..])
  }

  /** What trim keeps is one block of s: it starts where the leading
      whitespace ends, and only whitespace follows it. */
  lemma TrimIsBlock(s: string)
    ensures PaddedBlock(s, |s| - |TrimStart(s)|, Trim(s))
  {
    TrimSlices(s, TrimStart(s), TrimEnd(TrimStart(s)));
    assert Trim(s) == TrimEnd(TrimStart(s));
  }

  /** A non-empty prefix of a text that does not start with whitespace does
      not start with whitespace either. */
  lemma TrimFirst(u: string, t: string)
    requires u == [] || !IsTrimmable(u[0])
    requires |t| <= |u| && t == u[..|t|]
    ensures t != [] ==> !IsTrimmable(t[0])
  {
    if t != [] {
      assert t[0] == u[0];
    }
  }

  /** A prefix t of a suffix u of s, followed in u only by whitespace, is the
      block of s that starts where u does and has only whitespace after it. */
  lemma TrimSlices(s: string, u: string, t: string)
    requires |u| <= |s| && u == s[|s| - |u|..] && AllTrimmable(s[..|s| - |u|])
    requires |t| <= |u| && t == u[..|t|] && AllTrimmable(u[|t|..])
    ensures PaddedBlock(s, |s| - |u|, t)
  {
    var i := |s| - |u|;
    assert u[|t|..] == s[i + |t|..];
  }

  /** Trimmable characters in front of a text do not change where the
      leading trim stops. */
  lemma {:induction false} TrimStartPadded(pre: string, s: string)
    requires AllTrimmable(pre)
    ensures TrimStart(pre + s) == TrimStart(s)
  {
    if pre != [] {
      assert (pre + s)[0] == pre[0];
      assert (pre + s)[1..] == pre[1..] + s;
      var p := pre[1..];
      assert forall k :: 0 <= k < |p| ==> p[k] == pre[k + 1];
      TrimStartPadded(pre[1..], s);
    } else {
      assert pre + s == s;
    }
  }

  /** Trimmable characters after a text do not change where the trailing
      trim stops. */
  lemma {:induction false} TrimEndPadded(s: string, post: string)
    requires AllTrimmable(post)
    ensures TrimEnd(s + post) == TrimEnd(s)
  {
    if post != [] {
      var n := |post|;
      assert (s + post)[|s| + n - 1] == post[n - 1];
      assert (s + post)[..|s| + n - 1] == s + post[..n - 1];
      TrimmablePrefix(post, n - 1);
      TrimEndPadded(s, post[..n - 1]);
    } else {
      assert s + post == s;
    }
  }

  /** A text that is empty or starts with a non-trimmable character is its
      own leading trim. */
  lemma TrimStartOfTrimmed(s: string)
    requires s == [] || !IsTrimmable(s[0])
    ensures TrimStart(s) == s
  {
  }

  /** Appending text after a text that starts with a non-trimmable character
      leaves the leading trim where it was. */
  lemma {:induction false} TrimStartAppend(s: string, post: string)
    ensures TrimStart(s) != [] ==> TrimStart(s + post) == TrimStart(s) + post
    ensures TrimStart(s) == [] ==> TrimStart(s + post) == TrimStart(post)
  {
    if s != [] && IsTrimmable(s[0]) {
      assert (s + post)[1..] == s[1..] + post;
      TrimStartAppend(s[1..], post);
    } else if s == [] {
      assert s + post == post;
    }
  }

  /** trim ignores any amount of trimmable padding on either side. */
  lemma TrimIgnoresPadding(pre: string, s: string, post: string)
    requires AllTrimmable(pre) && AllTrimmable(post)
    ensures Trim(pre + s + post) == Trim(s)
  {
    assert pre + s + post == pre + (s + post);
    TrimStartPadded(pre, s + post);
    TrimStartAppend(s, post);
    if TrimStart(s) != [] {
      TrimEndPadded(TrimStart(s), post);
    } else {
      assert TrimStart(post) == [] by {
        TrimStartPadded(post, []);
        assert post + [] == post;
      }
    }
  }

  /** Trimming twice is trimming once. */
  lemma TrimIdempotent(s: string)
    ensures Trim(Trim(s)) == Trim(s)
  {
    var t := Trim(s);
    if t != [] {
      var u := TrimStart(s);
      assert t == u[..|t|];
      assert !IsTrimmable(t[0]);
      TrimStartOfTrimmed(t);
    }
  }

  /** The two texts parse recognises itself. */
  predicate IsToken(t: string)
  {
    t == "Infinity" || t == "-Infinity"
  }

  /** `parse`: never fails. After trimming, exactly "Infinity" and
      "-Infinity" are the infinities; any other text is whatever the decimal
      parser makes of it, or NaN when that parser fails. The decimal parser
      returns a host number, which may itself be an infinity (a decimal
      text too large for a double). */
  function Parse(s: string, parseFloat: string -> Result<Value>): (v: Value)
    ensures v == PosInf <==> Trim(s) == "Infinity" || (!IsToken(Trim(s)) && parseFloat(Trim(s)) == Ok(PosInf))
    ensures v == NegInf <==> Trim(s) == "-Infinity" || (!IsToken(Trim(s)) && parseFloat(Trim(s)) == Ok(NegInf))
    ensures v.Finite? <==> !IsToken(Trim(s)) && parseFloat(Trim(s)).Ok? && parseFloat(Trim(s)).value.Finite?
    ensures v == NaN <==> !IsToken(Trim(s)) && (parseFloat(Trim(s)).Error? || parseFloat(Trim(s)) == Ok(NaN))
  {
    Dispatch(Trim(s), parseFloat)
  }

  /** What parse does with the already trimmed text t: the two tokens,
      compared case-sensitively, are the infinities; any other text is the
      decimal parser's number, or NaN when it fails. */
  function Dispatch(t: string, parseFloat: string -> Result<Value>): (v: Value)
    ensures v == PosInf <==> t == "Infinity" || (!IsToken(t) && parseFloat(t) == Ok(PosInf))
    ensures v == NegInf <==> t == "-Infinity" || (!IsToken(t) && parseFloat(t) == Ok(NegInf))
    ensures v.Finite? <==> !IsToken(t) && parseFloat(t).Ok? && parseFloat(t).value.Finite?
    ensures v.Finite? ==> parseFloat(t) == Ok(v)
    ensures v == NaN <==> !IsToken(t) && (parseFloat(t).Error? || parseFloat(t) == Ok(NaN))
  {
    if t == "Infinity" then PosInf
    else if t == "-Infinity" then NegInf
    else
      match parseFloat(t)
      case Ok(x) => x
      case Error => NaN
  }

  /** The outcome of parse, as an if-and-only-if on the trimmed text: a token
      gives its infinity, any other text the decimal parser's number, or NaN
      when the decimal parser fails. */
  lemma ParseOutcomes(s: string, parseFloat: string -> Result<Value>, v: Value)
    ensures Parse(s, parseFloat) == v <==>
      (Trim(s) == "Infinity" && v == PosInf) || (Trim(s) == "-Infinity" && v == NegInf)
      || (!IsToken(Trim(s)) && (parseFloat(Trim(s)) == Ok(v) || (parseFloat(Trim(s)) == Error && v == NaN)))
  {
    DispatchOutcomes(Trim(s), parseFloat, v);
  }

  /** The outcome of the dispatch on a trimmed text. */
  lemma DispatchOutcomes(t: string, parseFloat: string -> Result<Value>, v: Value)
    ensures Dispatch(t, parseFloat) == v <==>
      (t == "Infinity" && v == PosInf) || (t == "-Infinity" && v == NegInf)
      || (!IsToken(t) && (parseFloat(t) == Ok(v) || (parseFloat(t) == Error && v == NaN)))
  {
  }

  /** With a decimal parser that only ever gives finite numbers, parse gives
      an infinity exactly for the two tokens, and NaN exactly when the
      decimal parser fails. */
  lemma ParseFiniteParser(s: string, parseFloat: string -> Result<Value>)
    requires forall u :: parseFloat(u).Ok? ==> parseFloat(u).value.Finite?
    ensures Parse(s, parseFloat) == PosInf <==> Trim(s) == "Infinity"
    ensures Parse(s, parseFloat) == NegInf <==> Trim(s) == "-Infinity"
    ensures Parse(s, parseFloat) == NaN <==> !IsToken(Trim(s)) && parseFloat(Trim(s)).Error?
  {
    var t := Trim(s);
    assert parseFloat(t).Ok? ==> parseFloat(t).value.Finite?;
  }

  /** A decimal text too large for a double: when the decimal parser gives
      +Infinity for it, so does parse, although the text is not the token. */
  lemma ParseOverflow(s: string, parseFloat: string -> Result<Value>)
    requires s == "1.0e400" && parseFloat(s) == Ok(PosInf)
    ensures Parse(s, parseFloat) == PosInf
  {
    TrimUntouched(s);
    assert s[0] != "Infinity"[0] && s[0] != "-Infinity"[0];
    assert !IsToken(s);
  }

  /** Surrounding whitespace never changes what parse returns. */
  lemma ParseIgnoresPadding(pre: string, s: string, post: string, parseFloat: string -> Result<Value>)
    requires AllTrimmable(pre) && AllTrimmable(post)
    ensures Parse(pre + s + post, parseFloat) == Parse(s, parseFloat)
  {
    calc {
      Parse(pre + s + post, parseFloat);
      Dispatch(Trim(pre + s + post), parseFloat);
      { TrimIgnoresPadding(pre, s, post); }
      Dispatch(Trim(s), parseFloat);
      Parse(s, parseFloat);
    }
  }

  /** A text that neither starts nor ends with a trimmable character is
      left as it is by trim. */
  lemma TrimUntouched(s: string)
    requires s != [] && !IsTrimmable(s[0]) && !IsTrimmable(s[|s| - 1])
    ensures Trim(s) == s
  {
  }

  /** The infinity token is recognised through any whitespace padding. */
  lemma ParsePaddedInfinity(pre: string, tok: string, post: string, parseFloat: string -> Result<Value>)
    requires tok == "Infinity" && AllTrimmable(pre) && AllTrimmable(post)
    ensures Parse(pre + tok + post, parseFloat) == PosInf
  {
    TrimUntouched(tok);
    ParseIgnoresPadding(pre, tok, post, parseFloat);
  }

  /** The tokens are case-sensitive: "infinity" is left to the decimal
      parser, and is NaN when that parser rejects it. */
  lemma ParseTokenCaseSensitive(s: string, parseFloat: string -> Result<Value>)
    requires s == "infinity" && parseFloat(s) == Error
    ensures Parse(s, parseFloat) == NaN
  {
    TrimUntouched(s);
    assert s[0] != "Infinity"[0] && s[0] != "-Infinity"[0];
  }
}
