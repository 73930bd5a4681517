/** The two helpers the SVG output leans on: `clamp` for a bar's width and
    `escape_xml` for its label. */
module Render {

  /** `max(lo, min(hi, v))`. */
  function Clamp(v: int, lo: int, hi: int): (r: int)
    ensures lo <= hi ==> lo <= r <= hi
    ensures lo <= v <= hi ==> r == v
    ensures v < lo ==> r == lo
    ensures lo <= hi < v ==> r == hi
    ensures hi < lo ==> r == lo
  {
    var m := if hi < v then hi else v;
    if lo < m then m else lo
  }

  /** `s.replace(c, rep)` for a one-character pattern: every `c` becomes `rep`. */
  function Replace(s: string, c: char, rep: string): (r: string) {
    if s == [] then []
    else (if s[0] == c then rep else [s[0]]) + Replace(s[1..], c, rep)
  }

  /** `escape_xml`: `&` first, then `<`, then `>`. */
  function EscapeXml(s: string): (r: string) {
    Replace(Replace(Replace(s, '&', "&amp;"), '<', "&lt;"), '>', "&gt;")
  }

  /** The escape of one character. */
  function EscapeChar(c: char): (r: string) {
    if c == '&' then "&amp;"
    else if c == '<' then "&lt;"
    else if c == '>' then "&gt;"
    else [c]
  }

  /** A character-by-character escape, the reference the three passes are
      measured against. */
  function EscapeEach(s: string): (r: string) {
    if s == [] then [] else EscapeChar(s[0]) + EscapeEach(s[1..])
  }

  /** The inverse of the escape: the three entities back to their characters. */
  function Unescape(t: string): (r: string)
    decreases |t|
  {
    if t == [] then []
    else if |t| >= 5 && t[..5] == "&amp;" then "&" + Unescape(t[5..])
    else if |t| >= 4 && t[..4] == "&lt;" then "<" + Unescape(t[4..])
    else if |t| >= 4 && t[..4] == "&gt;" then ">" + Unescape(t[4..])
    else [t[0]] + Unescape(t[1..])
  }

  /** One of the three entities starts at `i`. */
  predicate EntityAt(t: string, i: int)
    requires 0 <= i < |t|
  {
    || (i + 5 <= |t| && t[i..i + 5] == "&amp;")
    || (i + 4 <= |t| && t[i..i + 4] == "&lt;")
    || (i + 4 <= |t| && t[i..i + 4] == "&gt;")
  }

  lemma {:induction false} ReplaceAppend(a: string, b: string, c: char, rep: string)
    ensures Replace(a + b, c, rep) == Replace(a, c, rep) + Replace(b, c, rep)
  {
    if a == [] {
      assert a + b == b;
    } else {
      assert (a + b)[1..] == a[1..] + b;
      ReplaceAppend(a[1..], b, c, rep);
    }
  }

  lemma {:induction false} ReplaceAbsent(s: string, c: char, rep: string)
    requires c !in s
    ensures Replace(s, c, rep) == s
  {
    if s != [] {
      ReplaceAbsent(s[1..], c, rep);
    }
  }

  lemma ReplaceSingle(x: char, c: char, rep: string)
    ensures Replace([x], c, rep) == if x == c then rep else [x]
  {
    assert [x][1..] == [];
  }

  /** The three passes work on a concatenation piece by piece. */
  lemma EscapeXmlAppend(a: string, b: string)
    ensures EscapeXml(a + b) == EscapeXml(a) + EscapeXml(b)
  {
    ReplaceAppend(a, b, '&', "&amp;");
    ReplaceAppend(Replace(a, '&', "&amp;"), Replace(b, '&', "&amp;"), '<', "&lt;");
    ReplaceAppend(Replace(Replace(a, '&', "&amp;"), '<', "&lt;"),
                  Replace(Replace(b, '&', "&amp;"), '<', "&lt;"), '>', "&gt;");
  }

  /** On one character the three passes give that character's escape: the
      entities the earlier passes insert hold no `<` or `>`. */
  lemma EscapeXmlChar(x: char)
    ensures EscapeXml([x]) == EscapeChar(x)
  {
    ReplaceSingle(x, '&', "&amp;");
    if x == '&' {
      ReplaceAbsent("&amp;", '<', "&lt;");
      ReplaceAbsent("&amp;", '>', "&gt;");
    } else {
      ReplaceSingle(x, '<', "&lt;");
      if x == '<' {
        ReplaceAbsent("&lt;", '>', "&gt;");
      } else {
        ReplaceSingle(x, '>', "&gt;");
      }
    }
  }

  /** The three whole-string passes agree with escaping each character on its
      own: since `&` is replaced first, the `&` that the later passes insert
      are never escaped again. */
  lemma {:induction false} EscapeXmlIsPerCharacter(s: string)
    ensures EscapeXml(s) == EscapeEach(s)
  {
    if s != [] {
      assert s == [s[0]] + s[1..];
      EscapeXmlAppend([s[0]], s[1..]);
      EscapeXmlChar(s[0]);
      EscapeXmlIsPerCharacter(s[1..]);
    }
  }

  lemma UnescapeAmp(t: string)
    ensures Unescape("&amp;" + t) == "&" + Unescape(t)
  {
    var u := "&amp;" + t;
    assert u[..5] == "&amp;" && u[5..] == t;
  }

  lemma UnescapeLt(t: string)
    ensures Unescape("&lt;" + t) == "<" + Unescape(t)
  {
    var u := "&lt;" + t;
    assert u[1] == 'l';
    assert u[..4] == "&lt;" && u[4..] == t;
  }

  lemma UnescapeGt(t: string)
    ensures Unescape("&gt;" + t) == ">" + Unescape(t)
  {
    var u := "&gt;" + t;
    assert u[1] == 'g';
    assert u[..4] != "&lt;";
    assert u[..4] == "&gt;" && u[4..] == t;
  }

  lemma UnescapePlain(c: char, t: string)
    requires c != '&'
    ensures Unescape([c] + t) == [c] + Unescape(t)
  {
    var u := [c] + t;
    assert u[0] == c && u[1..] == t;
  }

  /** Unescaping reads one escaped character back off the front. */
  lemma UnescapeChar(c: char, t: string)
    ensures Unescape(EscapeChar(c) + t) == [c] + Unescape(t)
  {
    if c == '&' {
      UnescapeAmp(t);
    } else if c == '<' {
      UnescapeLt(t);
    } else if c == '>' {
      UnescapeGt(t);
    } else {
      UnescapePlain(c, t);
    }
  }

  /** Unescaping the escape of a string gives the string back. */
  lemma {:induction false} UnescapeEscapeEach(s: string)
    ensures Unescape(EscapeEach(s)) == s
  {
    if s != [] {
      UnescapeEscapeEach(s[1..]);
      UnescapeChar(s[0], EscapeEach(s[1..]));
      assert s == [s[0]] + s[1..];
    }
  }

  /** What `escape_xml` promises: its output holds no `<` and no `>`, every
      `&` in it starts one of the three entities, and the input can be read
      back from it. */
  lemma EscapeXmlSafe(s: string)
    ensures '<' !in EscapeXml(s) && '>' !in EscapeXml(s)
    ensures forall i :: 0 <= i < |EscapeXml(s)| && EscapeXml(s)[i] == '&' ==> EntityAt(EscapeXml(s), i)
    ensures Unescape(EscapeXml(s)) == s
  {
    EscapeXmlIsPerCharacter(s);
    EscapeEachSafe(s);
    UnescapeEscapeEach(s);
  }

  /** An entity start stays one when text is put in front. */
  lemma EntityShift(h: string, t: string, j: int)
    requires 0 <= j < |t| && EntityAt(t, j)
    ensures EntityAt(h + t, |h| + j)
  {
    var u, i := h + t, |h| + j;
    if j + 5 <= |t| && t[j..j + 5] == "&amp;" {
      assert u[i..i + 5] == t[j..j + 5];
    } else if j + 4 <= |t| && t[j..j + 4] == "&lt;" {
      assert u[i..i + 4] == t[j..j + 4];
    } else {
      assert u[i..i + 4] == t[j..j + 4];
    }
  }

  /** The escape of one character holds no `<` or `>`, and an `&` in it is
      the start of the entity it is. */
  lemma EscapeCharSafe(c: char, t: string)
    ensures '<' !in EscapeChar(c) && '>' !in EscapeChar(c)
    ensures forall i :: 0 <= i < |EscapeChar(c)| && EscapeChar(c)[i] == '&' ==>
              i == 0 && EntityAt(EscapeChar(c) + t, 0)
  {
    var h := EscapeChar(c);
    if c == '&' {
      assert (h + t)[0..5] == h;
    } else if c == '<' || c == '>' {
      assert (h + t)[0..4] == h;
    }
  }

  lemma {:induction false} EscapeEachSafe(s: string)
    ensures '<' !in EscapeEach(s) && '>' !in EscapeEach(s)
    ensures forall i :: 0 <= i < |EscapeEach(s)| && EscapeEach(s)[i] == '&' ==> EntityAt(EscapeEach(s), i)
  {
    if s != [] {
      EscapeEachSafe(s[1..]);
      var h, t := EscapeChar(s[0]), EscapeEach(s[1..]);
      EscapeCharSafe(s[0], t);
      var u := h + t;
      assert EscapeEach(s) == u;
      forall i | 0 <= i < |u| && u[i] == '&'
        ensures EntityAt(u, i)
      {
        if i < |h| {
          assert h[i] == '&';
        } else {
          assert u[i] == t[i - |h|];
          EntityShift(h, t, i - |h|);
        }
      }
    }
  }
}
