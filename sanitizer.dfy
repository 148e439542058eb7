/** Escaping of markup in request values, for strings and for nested arrays. */
module Sanitizer {
  import opened Payload

  /** The characters htmlentities() rewrites in ASCII text with its default flags. */
  predicate IsHtmlSpecial(c: char)
  {
    c == '&' || c == '<' || c == '>' || c == '"'
  }

  /** The characters that may not survive sanitizing in raw form. */
  predicate IsMarkup(c: char)
  {
    c == '<' || c == '>' || c == '"'
  }

  /** The entity htmlentities() writes for one character. */
  function Entity(c: char): (r: string)
    ensures |r| >= 1 && forall i :: 0 <= i < |r| ==> !IsMarkup(r[i])
    ensures IsHtmlSpecial(c) <==> r != [c]
    ensures IsHtmlSpecial(c) ==> |r| > 1 && r[0] == '&'
  {
    match c
    case '&' => "&amp;"
    case '<' => "&lt;"
    case '>' => "&gt;"
    case '"' => "&quot;"
    case _ => [c]
  }

  /** FormB::sanitizeInput, i.e. htmlentities() restricted to ASCII: the result never
      holds a raw <, > or ". */
  function SanitizeInput(s: string): (r: string)
    ensures |r| >= |s|
    ensures forall i :: 0 <= i < |r| ==> !IsMarkup(r[i])
    decreases |s|
  {
    if s == [] then [] else Entity(s[0]) + SanitizeInput(s[1..])
  }

  /** html_entity_decode() for the four entities SanitizeInput writes; anything else
      is copied. */
  function DecodeEntities(s: string): string
    decreases |s|
  {
    if s == [] then []
    else if "&amp;" <= s then ['&'] + DecodeEntities(s[5..])
    else if "&lt;" <= s then ['<'] + DecodeEntities(s[4..])
    else if "&gt;" <= s then ['>'] + DecodeEntities(s[4..])
    else if "&quot;" <= s then ['"'] + DecodeEntities(s[6..])
    else [s[0]] + DecodeEntities(s[1..])
  }

  /** Decoding one entity that starts a string gives back its character. */
  lemma DecodeEntityPrefix(c: char, t: string)
    ensures DecodeEntities(Entity(c) + t) == [c] + DecodeEntities(t)
  {
    var s := Entity(c) + t;
    if c == '&' {
      assert s[..5] == "&amp;";
      assert s[5..] == t;
    } else if c == '<' {
      assert !("&amp;" <= s) by { assert s[1] == 'l'; }
      assert s[..4] == "&lt;";
      assert s[4..] == t;
    } else if c == '>' {
      assert !("&amp;" <= s) && !("&lt;" <= s) by { assert s[1] == 'g'; }
      assert s[..4] == "&gt;";
      assert s[4..] == t;
    } else if c == '"' {
      assert !("&amp;" <= s) && !("&lt;" <= s) && !("&gt;" <= s) by { assert s[1] == 'q'; }
      assert s[..6] == "&quot;";
      assert s[6..] == t;
    } else {
      assert s[0] == c && s[1..] == t;
    }
  }

  /** Sanitizing loses nothing: decoding the entities gives back the input. */
  lemma {:induction false} DecodeSanitizeInput(s: string)
    ensures DecodeEntities(SanitizeInput(s)) == s
    decreases |s|
  {
    if s != [] {
      DecodeSanitizeInput(s[1..]);
      DecodeEntityPrefix(s[0], SanitizeInput(s[1..]));
    }
  }

  /** A string is left as it is exactly when it holds none of &, <, > and ". */
  lemma {:induction false} SanitizeInputFixedPoint(s: string)
    ensures SanitizeInput(s) == s <==> forall i :: 0 <= i < |s| ==> !IsHtmlSpecial(s[i])
    decreases |s|
  {
    if s != [] {
      SanitizeInputFixedPoint(s[1..]);
      var rest := SanitizeInput(s[1..]);
      if IsHtmlSpecial(s[0]) {
        assert |SanitizeInput(s)| > |s|;
      } else {
        assert SanitizeInput(s) == [s[0]] + rest;
        if rest == s[1..] {
          assert SanitizeInput(s) == s;
        } else {
          assert SanitizeInput(s)[1..] == rest;
        }
        assert forall i :: 1 <= i < |s| ==> s[i] == s[1..][i - 1];
      }
    }
  }

  /** Sanitizing text that held a special character leaves an '&' in it. */
  lemma {:induction false} SanitizeInputKeepsAmpersand(s: string, k: nat)
    requires k < |s| && IsHtmlSpecial(s[k])
    ensures '&' in SanitizeInput(s)
    decreases |s|
  {
    var r := SanitizeInput(s);
    if k == 0 {
      assert r[0] == Entity(s[0])[0];
    } else {
      SanitizeInputKeepsAmpersand(s[1..], k - 1);
      var rest := SanitizeInput(s[1..]);
      var j :| 0 <= j < |rest| && rest[j] == '&';
      assert r[|Entity(s[0])| + j] == '&';
    }
  }

  /** Sanitizing is not idempotent: text with a special character changes again when
      it is sanitized a second time. */
  lemma SanitizeInputNotIdempotent(s: string, k: nat)
    requires k < |s| && IsHtmlSpecial(s[k])
    ensures SanitizeInput(SanitizeInput(s)) != SanitizeInput(s)
  {
    var r := SanitizeInput(s);
    SanitizeInputKeepsAmpersand(s, k);
    SanitizeInputFixedPoint(r);
    var j :| 0 <= j < |r| && r[j] == '&';
    assert IsHtmlSpecial(r[j]);
  }

  /** The value FormB::sanitizeObject returns: every string leaf escaped, every key and
      every level of nesting kept. */
  function Sanitized(v: Value): Value
  {
    match v
    case Str(s) => Str(SanitizeInput(s))
    case Arr(es) => Arr(seq(|es|, i requires 0 <= i < |es| => (es[i].0, Sanitized(es[i].1))))
  }

  /** The inverse of Sanitized: every string leaf decoded. */
  function Desanitized(v: Value): Value
  {
    match v
    case Str(s) => Str(DecodeEntities(s))
    case Arr(es) => Arr(seq(|es|, i requires 0 <= i < |es| => (es[i].0, Desanitized(es[i].1))))
  }

  /** Two values with the same keys and the same nesting, whatever their strings. */
  predicate SameShape(a: Value, b: Value)
  {
    match a
    case Str(_) => b.Str?
    case Arr(es) =>
      && b.Arr? && |b.entries| == |es|
      && forall i :: 0 <= i < |es| ==> b.entries[i].0 == es[i].0 && SameShape(es[i].1, b.entries[i].1)
  }

  /** No string leaf of a value holds a raw <, > or ". */
  predicate NoMarkup(v: Value)
  {
    match v
    case Str(s) => forall i :: 0 <= i < |s| ==> !IsMarkup(s[i])
    case Arr(es) => forall i :: 0 <= i < |es| ==> NoMarkup(es[i].1)
  }

  /** Sanitizing keeps the keys and nesting of its input. */
  lemma {:induction false} SanitizedSameShape(v: Value)
    ensures SameShape(v, Sanitized(v))
  {
    match v
    case Str(_) =>
    case Arr(es) =>
      forall i | 0 <= i < |es| ensures SameShape(es[i].1, Sanitized(v).entries[i].1) {
        SanitizedSameShape(es[i].1);
      }
  }

  /** No raw markup character survives sanitizing, at any depth. */
  lemma {:induction false} SanitizedNoMarkup(v: Value)
    ensures NoMarkup(Sanitized(v))
  {
    match v
    case Str(_) =>
    case Arr(es) =>
      forall i | 0 <= i < |es| ensures NoMarkup(Sanitized(v).entries[i].1) {
        SanitizedNoMarkup(es[i].1);
      }
  }

  /** Decoding a sanitized value gives back the original value. */
  lemma {:induction false} DesanitizeSanitized(v: Value)
    ensures Desanitized(Sanitized(v)) == v
  {
    match v
    case Str(s) => DecodeSanitizeInput(s);
    case Arr(es) =>
      var r := Desanitized(Sanitized(v));
      forall i | 0 <= i < |es| ensures r.entries[i] == es[i] {
        DesanitizeSanitized(es[i].1);
      }
  }

  /** Escaping works character by character, so it distributes over concatenation. */
  lemma {:induction false} SanitizeInputAppend(a: string, b: string)
    ensures SanitizeInput(a + b) == SanitizeInput(a) + SanitizeInput(b)
    decreases |a|
  {
    if a == [] {
      assert a + b == b;
    } else {
      assert (a + b)[0] == a[0];
      assert (a + b)[1..] == a[1..] + b;
      SanitizeInputAppend(a[1..], b);
      calc {
        SanitizeInput(a + b);
        Entity(a[0]) + SanitizeInput(a[1..] + b);
        Entity(a[0]) + (SanitizeInput(a[1..]) + SanitizeInput(b));
        (Entity(a[0]) + SanitizeInput(a[1..])) + SanitizeInput(b);
      }
    }
  }

  /** Plain text: no character htmlentities() rewrites. */
  predicate IsPlain(s: string)
  {
    forall i :: 0 <= i < |s| ==> !IsHtmlSpecial(s[i])
  }

  /** A tag such as <b> around plain text: only the angle brackets are rewritten. */
  lemma SanitizeBracketed(t: string)
    requires IsPlain(t)
    ensures SanitizeInput("<" + t + ">") == "&lt;" + t + "&gt;"
  {
    SanitizeInputFixedPoint(t);
    SanitizeInputAppend("<", t);
    SanitizeInputAppend("<" + t, ">");
  }

  /** The escapes of the pieces of a tag. */
  lemma AngleBrackets()
    ensures SanitizeInput("<") == "&lt;" && SanitizeInput(">") == "&gt;"
    ensures SanitizeInput("</") == "&lt;/"
  {
    assert "</" == "<" + "/";
    SanitizeInputAppend("<", "/");
  }

  /** An element such as <script>x</script> whose tag name and body are plain text is
      neutralised: only its angle brackets are rewritten. */
  lemma SanitizeElement(tag: string, body: string)
    requires IsPlain(tag) && IsPlain(body)
    ensures SanitizeInput("<" + tag + ">" + body + "</" + tag + ">")
         == "&lt;" + tag + "&gt;" + body + "&lt;/" + tag + "&gt;"
  {
    SanitizeInputFixedPoint(tag);
    SanitizeInputFixedPoint(body);
    AngleBrackets();
    var x1, y1 := "<" + tag, "&lt;" + tag;
    assert SanitizeInput(x1) == y1 by { SanitizeInputAppend("<", tag); }
    var x2, y2 := x1 + ">", y1 + "&gt;";
    assert SanitizeInput(x2) == y2 by { SanitizeInputAppend(x1, ">"); }
    var x3, y3 := x2 + body, y2 + body;
    assert SanitizeInput(x3) == y3 by { SanitizeInputAppend(x2, body); }
    var x4, y4 := x3 + "</", y3 + "&lt;/";
    assert SanitizeInput(x4) == y4 by { SanitizeInputAppend(x3, "</"); }
    var x5, y5 := x4 + tag, y4 + tag;
    assert SanitizeInput(x5) == y5 by { SanitizeInputAppend(x4, tag); }
    var x6, y6 := x5 + ">", y5 + "&gt;";
    assert SanitizeInput(x6) == y6 by { SanitizeInputAppend(x5, ">"); }
  }

  /** Sanitizing twice escapes the ampersand twice. */
  lemma SanitizeTwice()
    ensures Sanitized(Str("&")) == Str("&amp;")
    ensures Sanitized(Sanitized(Str("&"))) == Str("&amp;amp;")
  {
  }

  /** A nested array keeps its keys and shape; only its leaves change. */
  lemma SanitizeNested()
    ensures Sanitized(Arr([(Name("a"), Arr([(Index(0), Str("<b>")), (Index(1), Str("ok"))]))]))
         == Arr([(Name("a"), Arr([(Index(0), Str("&lt;b&gt;")), (Index(1), Str("ok"))]))])
  {
    SanitizeInputFixedPoint("ok");
    assert SanitizeInput("<b>") == "&lt;b&gt;" by {
      SanitizeBracketed("b");
    }
    var inner := Arr([(Index(0), Str("<b>")), (Index(1), Str("ok"))]);
    assert Sanitized(inner) == Arr([(Index(0), Str("&lt;b&gt;")), (Index(1), Str("ok"))]);
  }
}
