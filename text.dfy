/** Python's `str.strip()` followed by `str.upper()`, the normalisation the
    scripts apply to every natural-key text field and to reference names. */
module Text {

  /** Python's `str.isspace()`: the ASCII whitespace and the Unicode space separators. */
  predicate IsSpace(c: char) {
    c == ' ' || 9 <= c as int <= 13 || 28 <= c as int <= 31
    || c as int == 0x85 || c as int == 0xA0 || c as int == 0x1680
    || 0x2000 <= c as int <= 0x200A || c as int == 0x2028 || c as int == 0x2029
    || c as int == 0x202F || c as int == 0x205F || c as int == 0x3000
  }

  predicate IsLower(c: char) {
    'a' <= c <= 'z'
  }

  /** Upper-casing, for the ASCII letters. */
  function UpperChar(c: char): (u: char)
    ensures !IsLower(u)
    ensures IsSpace(u) <==> IsSpace(c)
    ensures !IsLower(c) ==> u == c
    ensures IsLower(c) ==> u as int == c as int - 32
  {
    if IsLower(c) then (c as int - 32) as char else c
  }

  function Upper(s: string): (r: string)
    ensures |r| == |s|
    ensures forall i :: 0 <= i < |s| ==> r[i] == UpperChar(s[i])
  {
    seq(|s|, i requires 0 <= i < |s| => UpperChar(s[i]))
  }

  function TrimStart(s: string): string {
    if |s| > 0 && IsSpace(s[0]) then TrimStart(s[1..]) else s
  }

  function TrimEnd(s: string): string {
    if |s| > 0 && IsSpace(s[|s| - 1]) then TrimEnd(s[..|s| - 1]) else s
  }

  /** `strip()`: no whitespace is left at either end. */
  function Strip(s: string): (r: string)
    ensures |r| > 0 ==> !IsSpace(r[0]) && !IsSpace(r[|r| - 1])
  {
    TrimStartShape(s);
    TrimEndShape(TrimStart(s));
    if |TrimStart(s)| > 0 then
      TrimEndKeepsFirst(TrimStart(s));
      TrimEnd(TrimStart(s))
    else
      TrimEnd(TrimStart(s))
  }

  /** `s.strip().upper()`: a normal key. */
  function Normalize(s: string): (r: string)
    ensures IsNormal(r)
  {
    Upper(Strip(s))
  }

  predicate AllSpace(w: string) {
    forall i :: 0 <= i < |w| ==> IsSpace(w[i])
  }

  /** What a normalised key looks like: no surrounding whitespace, no lower-case letter. */
  predicate IsNormal(s: string) {
    && (|s| > 0 ==> !IsSpace(s[0]) && !IsSpace(s[|s| - 1]))
    && forall i :: 0 <= i < |s| ==> !IsLower(s[i])
  }

  lemma {:induction false} TrimStartShape(s: string)
    ensures |TrimStart(s)| > 0 ==> !IsSpace(TrimStart(s)[0])
    ensures TrimStart(s) == [] <==> AllSpace(s)
    decreases |s|
  {
    if |s| > 0 && IsSpace(s[0]) {
      TrimStartShape(s[1..]);
      assert AllSpace(s[1..]) ==> AllSpace(s) by {
        if AllSpace(s[1..]) {
          forall i | 0 <= i < |s| ensures IsSpace(s[i]) {
            if i > 0 { assert s[i] == s[1..][i - 1]; }
          }
        }
      }
    }
  }

  lemma {:induction false} TrimEndShape(s: string)
    ensures |TrimEnd(s)| > 0 ==> !IsSpace(TrimEnd(s)[|TrimEnd(s)| - 1])
    decreases |s|
  {
    if |s| > 0 && IsSpace(s[|s| - 1]) {
      TrimEndShape(s[..|s| - 1]);
    }
  }

  /** Trimming the end of a string whose first character is not whitespace keeps that character. */
  lemma {:induction false} TrimEndKeepsFirst(s: string)
    requires |s| > 0 && !IsSpace(s[0])
    ensures |TrimEnd(s)| > 0 && TrimEnd(s)[0] == s[0]
    decreases |s|
  {
    if IsSpace(s[|s| - 1]) {
      TrimEndKeepsFirst(s[..|s| - 1]);
    }
  }

  /** `lstrip()` removes only leading whitespace. */
  lemma {:induction false} TrimStartSplit(s: string)
    ensures exists a :: AllSpace(a) && s == a + TrimStart(s)
    decreases |s|
  {
    if |s| > 0 && IsSpace(s[0]) {
      TrimStartSplit(s[1..]);
      var a :| AllSpace(a) && s[1..] == a + TrimStart(s[1..]);
      assert AllSpace([s[0]] + a) && s == [s[0]] + a + TrimStart(s);
    } else {
      assert AllSpace([]) && s == [] + TrimStart(s);
    }
  }

  /** `rstrip()` removes only trailing whitespace. */
  lemma {:induction false} TrimEndSplit(s: string)
    ensures exists b :: AllSpace(b) && s == TrimEnd(s) + b
    decreases |s|
  {
    if |s| > 0 && IsSpace(s[|s| - 1]) {
      TrimEndSplit(s[..|s| - 1]);
      var b :| AllSpace(b) && s[..|s| - 1] == TrimEnd(s[..|s| - 1]) + b;
      assert AllSpace(b + [s[|s| - 1]]) && s == TrimEnd(s) + (b + [s[|s| - 1]]);
    } else {
      assert AllSpace([]) && s == TrimEnd(s) + [];
    }
  }

  /** `strip()` keeps the text between the surrounding whitespace: the input is the
      result with only whitespace added on either side. */
  lemma StripKeepsMiddle(s: string)
    ensures exists a, b :: AllSpace(a) && AllSpace(b) && s == a + Strip(s) + b
  {
    TrimStartSplit(s);
    var a :| AllSpace(a) && s == a + TrimStart(s);
    TrimEndSplit(TrimStart(s));
    var b :| AllSpace(b) && TrimStart(s) == TrimEnd(TrimStart(s)) + b;
    assert s == a + Strip(s) + b;
  }

  /** Normalisation leaves a normal string alone. */
  lemma NormalIsFixpoint(s: string)
    requires IsNormal(s)
    ensures Normalize(s) == s
  {
    assert TrimStart(s) == s;
    assert TrimEnd(s) == s;
    assert Upper(s) == s;
  }

  /** Normalising twice is normalising once: re-normalising a stored key never changes it. */
  lemma NormalizeIdempotent(s: string)
    ensures Normalize(Normalize(s)) == Normalize(s)
  {
    NormalIsFixpoint(Normalize(s));
  }

  lemma {:induction false} TrimStartPadding(w: string, u: string)
    requires AllSpace(w)
    ensures TrimStart(w + u) == TrimStart(u)
    decreases |w|
  {
    if |w| > 0 {
      assert (w + u)[1..] == w[1..] + u;
      TrimStartPadding(w[1..], u);
    } else {
      assert w + u == u;
    }
  }

  lemma {:induction false} TrimEndPadding(u: string, w: string)
    requires AllSpace(w)
    ensures TrimEnd(u + w) == TrimEnd(u)
    decreases |w|
  {
    if |w| > 0 {
      assert (u + w)[..|u + w| - 1] == u + w[..|w| - 1];
      TrimEndPadding(u, w[..|w| - 1]);
    } else {
      assert u + w == u;
    }
  }

  lemma {:induction false} TrimStartAppend(u: string, v: string)
    requires TrimStart(u) != []
    ensures TrimStart(u + v) == TrimStart(u) + v
    decreases |u|
  {
    if IsSpace(u[0]) {
      assert (u + v)[1..] == u[1..] + v;
      TrimStartAppend(u[1..], v);
    }
  }

  lemma {:induction false} AllSpaceTrimEnd(w: string)
    requires AllSpace(w)
    ensures TrimEnd(w) == []
    decreases |w|
  {
    if |w| > 0 {
      AllSpaceTrimEnd(w[..|w| - 1]);
    }
  }

  /** Whitespace around a string does not survive `strip()`. */
  lemma StripPadding(w1: string, u: string, w2: string)
    requires AllSpace(w1) && AllSpace(w2)
    ensures Strip(w1 + u + w2) == Strip(u)
  {
    assert w1 + u + w2 == w1 + (u + w2);
    TrimStartPadding(w1, u + w2);
    TrimStartShape(u);
    if TrimStart(u) == [] {
      TrimStartPadding(u, w2);
      TrimStartShape(w2);
      AllSpaceTrimEnd(TrimStart(w2));
    } else {
      TrimStartAppend(u, w2);
      TrimEndPadding(TrimStart(u), w2);
    }
  }

  lemma {:induction false} UpperTrimStart(s: string)
    ensures Upper(TrimStart(s)) == TrimStart(Upper(s))
    decreases |s|
  {
    if |s| > 0 && IsSpace(s[0]) {
      assert Upper(s)[1..] == Upper(s[1..]);
      UpperTrimStart(s[1..]);
    }
  }

  lemma {:induction false} UpperTrimEnd(s: string)
    ensures Upper(TrimEnd(s)) == TrimEnd(Upper(s))
    decreases |s|
  {
    if |s| > 0 && IsSpace(s[|s| - 1]) {
      assert Upper(s)[..|s| - 1] == Upper(s[..|s| - 1]);
      UpperTrimEnd(s[..|s| - 1]);
    }
  }

  lemma UpperOfSpaces(w: string)
    requires AllSpace(w)
    ensures Upper(w) == w
  {
  }

  lemma UpperAppend(a: string, b: string)
    ensures Upper(a + b) == Upper(a) + Upper(b)
  {
  }

  /** Two key texts that differ only in letter case and in surrounding whitespace
      normalise to the same key, so they resolve to the same surrogate id. */
  lemma PaddingAndCaseIgnored(w1: string, s: string, w2: string, w3: string, t: string, w4: string)
    requires AllSpace(w1) && AllSpace(w2) && AllSpace(w3) && AllSpace(w4)
    requires Upper(s) == Upper(t)
    ensures Normalize(w1 + s + w2) == Normalize(w3 + t + w4)
  {
    forall a: string, u: string, b: string | AllSpace(a) && AllSpace(b)
      ensures Normalize(a + u + b) == Strip(Upper(u))
    {
      calc {
        Normalize(a + u + b);
        Upper(TrimEnd(TrimStart(a + u + b)));
        { UpperTrimEnd(TrimStart(a + u + b)); }
        TrimEnd(Upper(TrimStart(a + u + b)));
        { UpperTrimStart(a + u + b); }
        Strip(Upper(a + u + b));
        { UpperAppend(a + u, b); UpperAppend(a, u); UpperOfSpaces(a); UpperOfSpaces(b); }
        Strip(a + Upper(u) + b);
        { StripPadding(a, Upper(u), b); }
        Strip(Upper(u));
      }
    }
  }

  /** A padded lower-case airport and its upper-case form are the same airport. */
  lemma PaddedLowerCaseExample()
    ensures Normalize(" lhr ") == Normalize("LHR") == "LHR"
  {
    PaddedLowerCase();
    NormalIsFixpoint("LHR");
  }

  lemma PaddedLowerCase()
    ensures Normalize(" lhr ") == Normalize("LHR")
  {
    PaddingAndCaseIgnored(" ", "lhr", " ", "", "LHR", "");
    assert " " + "lhr" + " " == " lhr ";
    assert "" + "LHR" + "" == "LHR";
  }
}
