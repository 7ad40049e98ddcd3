/**
 * `escapeHTML` of the server action (app/actions/generate-roasts.ts): every
 * occurrence of one of the six characters & < > ' " ` is replaced by its
 * entity, every other character is kept.
 */
module HtmlEscape {
  import opened JsString

  /** The characters the escaper replaces. */
  predicate IsSpecial(c: char)
  {
    c == '&' || c == '<' || c == '>' || c == '\'' || c == '"' || c == '`'
  }

  /** The special characters other than `&`: none of them survives escaping. */
  predicate IsMarkup(c: char)
  {
    IsSpecial(c) && c != '&'
  }

  predicate NoMarkup(s: string)
  {
    forall i :: 0 <= i < |s| ==> !IsMarkup(s[i])
  }

  /** The entities the escaper writes, in the order of its table. */
  const Entities: seq<string> := ["&amp;", "&lt;", "&gt;", "&#39;", "&quot;", "&#96;"]

  function EscapeChar(c: char): string
  {
    match c
    case '&' => "&amp;"
    case '<' => "&lt;"
    case '>' => "&gt;"
    case '\'' => "&#39;"
    case '"' => "&quot;"
    case '`' => "&#96;"
    case _ => [c]
  }

  /** `escapeHTML(s)` */
  function Escape(s: string): (r: string)
    ensures |r| >= |s|
    ensures NoMarkup(r)
  {
    if s == [] then [] else EscapeChar(s[0]) + Escape(s[1..])
  }

  /** u starts with one of the six entities. */
  predicate BeginsEntity(u: string)
  {
    exists k :: 0 <= k < |Entities| && StartsWith(u, Entities[k])
  }

  /** Within the escape of one character, `&` occurs only first, where an entity begins. */
  lemma HeadAmpersand(c: char, rest: string, i: nat)
    requires i < |EscapeChar(c)| && EscapeChar(c)[i] == '&'
    ensures i == 0 && BeginsEntity(EscapeChar(c) + rest)
  {
    var h := EscapeChar(c);
    var t := h + rest;
    assert t[..|h|] == h;
    if c == '&' {
      assert StartsWith(t, Entities[0]);
    } else if c == '<' {
      assert StartsWith(t, Entities[1]);
    } else if c == '>' {
      assert StartsWith(t, Entities[2]);
    } else if c == '\'' {
      assert StartsWith(t, Entities[3]);
    } else if c == '"' {
      assert StartsWith(t, Entities[4]);
    } else if c == '`' {
      assert StartsWith(t, Entities[5]);
    }
  }

  /** Every `&` in the output is the first character of one of the six entities. */
  lemma {:induction false} AmpersandsStartEntities(s: string)
    ensures forall i :: 0 <= i < |Escape(s)| && Escape(s)[i] == '&' ==> BeginsEntity(Escape(s)[i..])
    decreases |s|
  {
    if s != [] {
      var head, rest := EscapeChar(s[0]), Escape(s[1..]);
      var r := Escape(s);
      assert r == head + rest;
      AmpersandsStartEntities(s[1..]);
      forall i | 0 <= i < |r| && r[i] == '&'
        ensures BeginsEntity(r[i..])
      {
        if i < |head| {
          HeadAmpersand(s[0], rest, i);
        } else {
          assert r[i..] == rest[i - |head|..];
        }
      }
    }
  }

  /** Escaping distributes over concatenation. */
  lemma {:induction false} EscapeConcat(a: string, b: string)
    ensures Escape(a + b) == Escape(a) + Escape(b)
    decreases |a|
  {
    if a != [] {
      assert (a + b)[0] == a[0];
      assert (a + b)[1..] == a[1..] + b;
      EscapeConcat(a[1..], b);
      calc {
        Escape(a + b);
        EscapeChar(a[0]) + Escape(a[1..] + b);
        EscapeChar(a[0]) + (Escape(a[1..]) + Escape(b));
        (EscapeChar(a[0]) + Escape(a[1..])) + Escape(b);
        Escape(a) + Escape(b);
      }
    } else {
      assert a + b == b;
    }
  }

  /** Escaping leaves a string unchanged exactly when it holds no special character. */
  lemma {:induction false} EscapeFixedIff(s: string)
    ensures Escape(s) == s <==> forall i :: 0 <= i < |s| ==> !IsSpecial(s[i])
    decreases |s|
  {
    if s != [] {
      EscapeFixedIff(s[1..]);
      if IsSpecial(s[0]) {
        assert |Escape(s)| > |s|;
      } else {
        assert Escape(s) == [s[0]] + Escape(s[1..]);
        if Escape(s) == s {
          assert Escape(s[1..]) == s[1..];
        }
        if forall i :: 0 <= i < |s| ==> !IsSpecial(s[i]) {
          assert forall i :: 0 <= i < |s[1..]| ==> !IsSpecial(s[1..][i]);
        }
      }
    }
  }

  /** Escaping is not idempotent: a second pass escapes the ampersands of the first. */
  lemma EscapeNotIdempotent()
    ensures Escape("&") == "&amp;"
    ensures Escape(Escape("&")) == "&amp;amp;"
  {
  }

  /** Decodes the six entities left to right, keeping everything else: the inverse of Escape. */
  function Unescape(t: string): string
    decreases |t|
  {
    if t == [] then []
    else if StartsWith(t, "&amp;") then "&" + Unescape(t[5..])
    else if StartsWith(t, "&lt;") then "<" + Unescape(t[4..])
    else if StartsWith(t, "&gt;") then ">" + Unescape(t[4..])
    else if StartsWith(t, "&#39;") then "'" + Unescape(t[5..])
    else if StartsWith(t, "&quot;") then "\"" + Unescape(t[6..])
    else if StartsWith(t, "&#96;") then "`" + Unescape(t[5..])
    else [t[0]] + Unescape(t[1..])
  }

  lemma UnescapeHead(c: char, rest: string)
    ensures Unescape(EscapeChar(c) + rest) == [c] + Unescape(rest)
  {
    var h := EscapeChar(c);
    var t := h + rest;
    assert t[|h|..] == rest;
    assert t[..|h|] == h;
    if !IsSpecial(c) {
      assert h == [c] && t[0] == c;
      assert !StartsWith(t, "&amp;") && !StartsWith(t, "&lt;") && !StartsWith(t, "&gt;");
      assert !StartsWith(t, "&#39;") && !StartsWith(t, "&quot;") && !StartsWith(t, "&#96;");
    } else if c == '&' {
      assert StartsWith(t, "&amp;");
    } else if c == '<' {
      assert t[1] == 'l' && !StartsWith(t, "&amp;");
    } else if c == '>' {
      assert t[1] == 'g' && !StartsWith(t, "&amp;") && !StartsWith(t, "&lt;");
    } else if c == '\'' {
      assert t[1] == '#' && t[2] == '3';
      assert !StartsWith(t, "&amp;") && !StartsWith(t, "&lt;") && !StartsWith(t, "&gt;");
    } else if c == '"' {
      assert t[1] == 'q';
      assert !StartsWith(t, "&amp;") && !StartsWith(t, "&lt;") && !StartsWith(t, "&gt;") && !StartsWith(t, "&#39;");
    } else {
      assert t[1] == '#' && t[2] == '9';
      assert !StartsWith(t, "&amp;") && !StartsWith(t, "&lt;") && !StartsWith(t, "&gt;");
      assert !StartsWith(t, "&#39;") && !StartsWith(t, "&quot;");
    }
  }

  /** Unescape(Escape(s)) == s: escaping loses nothing, so it is injective. */
  lemma {:induction false} UnescapeEscape(s: string)
    ensures Unescape(Escape(s)) == s
    decreases |s|
  {
    if s != [] {
      UnescapeEscape(s[1..]);
      UnescapeHead(s[0], Escape(s[1..]));
    }
  }

  lemma EscapeInjective(a: string, b: string)
    ensures Escape(a) == Escape(b) ==> a == b
  {
    UnescapeEscape(a);
    UnescapeEscape(b);
  }
}
