/** The string helpers of the XML test reporter (test_xml_reporter.cpp):
    `replace`, `escape` and `format_cdata`. Strings are sequences of
    characters; `std::string::find` is `Find`. */
module XmlStrings {
  import opened Wrappers

  /** `from` occurs in s at position p. */
  predicate OccursAt(s: string, from: string, p: nat)
  {
    p + |from| <= |s| && s[p .. p + |from|] == from
  }

  /** Occurrences in a suffix are occurrences in the whole, shifted. */
  lemma OccursShift(s: string, from: string, k: nat, q: nat)
    requires k <= |s|
    ensures OccursAt(s[k..], from, q) <==> OccursAt(s, from, k + q)
  {
    if q + |from| <= |s| - k {
      assert s[k..][q .. q + |from|] == s[k + q .. k + q + |from|];
    }
  }

  lemma PrefixOccurs(s: string, from: string)
    ensures from <= s <==> OccursAt(s, from, 0)
  {
  }

  /** `str.find(from, offset)`: the first position at or after offset where
      from occurs, or None for `npos`. */
  function Find(s: string, from: string, offset: nat): (r: Option<nat>)
    decreases |s| - offset
    ensures r.Some? ==> offset <= r.value && OccursAt(s, from, r.value)
    ensures r.Some? ==> forall q: nat :: offset <= q < r.value ==> !OccursAt(s, from, q)
    ensures r.None? ==> forall q: nat :: offset <= q ==> !OccursAt(s, from, q)
  {
    if offset + |from| > |s| then None
    else if s[offset .. offset + |from|] == from then Some(offset)
    else Find(s, from, offset + 1)
  }

  /** The reference meaning of replacing every occurrence of a non-empty
      `from`: scan left to right, and after a match continue behind it, so
      occurrences never overlap and replacement text is never scanned. */
  function ReplaceAll(s: string, from: string, to: string): (r: string)
    requires |from| > 0
    decreases |s|
  {
    if s == [] then []
    else if from <= s then to + ReplaceAll(s[|from|..], from, to)
    else [s[0]] + ReplaceAll(s[1..], from, to)
  }

  /** Without an occurrence before p, the reference copies s up to p. */
  lemma {:induction false} ReplaceAllSkip(s: string, from: string, to: string, p: nat)
    requires |from| > 0 && p <= |s|
    requires forall q: nat :: q < p ==> !OccursAt(s, from, q)
    ensures ReplaceAll(s, from, to) == s[..p] + ReplaceAll(s[p..], from, to)
    decreases p
  {
    if p > 0 {
      PrefixOccurs(s, from);
      forall q: nat | q < p - 1
        ensures !OccursAt(s[1..], from, q)
      {
        OccursShift(s, from, 1, q);
      }
      ReplaceAllSkip(s[1..], from, to, p - 1);
      assert s[1..][..p - 1] == s[1..p];
      assert s[1..][p - 1..] == s[p..];
      assert s[..p] == [s[0]] + s[1..p];
    }
  }

  /** An occurrence at the front is replaced. */
  lemma ReplaceAllHead(s: string, from: string, to: string)
    requires |from| > 0 && OccursAt(s, from, 0)
    ensures ReplaceAll(s, from, to) == to + ReplaceAll(s[|from|..], from, to)
  {
    PrefixOccurs(s, from);
  }

  /** `replace(str, from, to)` as the code runs it: find from the offset,
      splice `to` in place of the match, resume behind the inserted text. */
  method Replace(str: string, from: string, to: string) returns (r: string)
    ensures from == [] ==> r == str
    ensures from != [] ==> r == ReplaceAll(str, from, to)
  {
    r := str;
    if from == [] {
      return;
    }
    var offset: nat := 0;
    var pos := Find(r, from, offset);
    while pos.Some?
      invariant offset <= |r|
      invariant pos == Find(r, from, offset)
      invariant r[..offset] + ReplaceAll(r[offset..], from, to) == ReplaceAll(str, from, to)
      decreases |r| - offset
    {
      var p := pos.value;
      forall q: nat | q < p - offset
        ensures !OccursAt(r[offset..], from, q)
      {
        OccursShift(r, from, offset, q);
      }
      OccursShift(r, from, offset, p - offset);
      ReplaceAllSkip(r[offset..], from, to, p - offset);
      ReplaceAllHead(r[p..], from, to);
      var next := r[..p] + to + r[p + |from|..];
      Splice(r, from, to, offset, p);
      r, offset := next, p + |to|;
      pos := Find(r, from, offset);
    }
    NoneLeft(r, from, to, offset);
  }

  lemma Splice(r: string, from: string, to: string, offset: nat, p: nat)
    requires |from| > 0 && offset <= p && OccursAt(r, from, p)
    requires ReplaceAll(r[offset..], from, to) == r[offset..][..p - offset] + ReplaceAll(r[offset..][p - offset..], from, to)
    requires ReplaceAll(r[p..], from, to) == to + ReplaceAll(r[p..][|from|..], from, to)
    ensures var next := r[..p] + to + r[p + |from|..];
      p + |to| <= |next|
      && next[..p + |to|] + ReplaceAll(next[p + |to|..], from, to) == r[..offset] + ReplaceAll(r[offset..], from, to)
  {
    var next := r[..p] + to + r[p + |from|..];
    assert next[..p + |to|] == r[..p] + to;
    assert next[p + |to|..] == r[p + |from|..];
    assert r[offset..][p - offset..] == r[p..];
    assert r[p..][|from|..] == r[p + |from|..];
    assert r[..offset] + r[offset..][..p - offset] == r[..p];
  }

  lemma NoneLeft(r: string, from: string, to: string, offset: nat)
    requires |from| > 0 && offset <= |r| && Find(r, from, offset).None?
    ensures r[..offset] + ReplaceAll(r[offset..], from, to) == r
  {
    var s := r[offset..];
    forall q: nat | q < |s|
      ensures !OccursAt(s, from, q)
    {
      OccursShift(r, from, offset, q);
    }
    ReplaceAllSkip(s, from, to, |s|);
    assert s[|s|..] == [];
    assert r[..offset] + s == r;
  }

  // ---------------------------------------------------------------------
  // escape

  /** The entity `escape` writes for one character. */
  function EscapeChar(c: char): string
  {
    if c == '&' then "&amp;"
    else if c == '<' then "&lt;"
    else if c == '>' then "&gt;"
    else if c == '"' then "&quot;"
    else if c == '\'' then "&apos;"
    else [c]
  }

  /** The reference escaping: every character replaced by its entity on
      its own, so no ampersand of an entity is escaped again. */
  function EscapeRef(s: string): (r: string)
  {
    if s == [] then [] else EscapeChar(s[0]) + EscapeRef(s[1..])
  }

  /** None of the characters that need escaping inside an attribute. */
  predicate Unmarked(s: string)
  {
    forall i :: 0 <= i < |s| ==> s[i] != '<' && s[i] != '>' && s[i] != '"' && s[i] != '\''
  }

  lemma {:induction false} EscapeRefUnmarked(s: string)
    ensures Unmarked(EscapeRef(s))
  {
    if s != [] {
      EscapeRefUnmarked(s[1..]);
      assert Unmarked(EscapeChar(s[0]));
    }
  }

  /** The five replacements of `escape`, in the code's order. */
  function EscapeChain(s: string): string
  {
    ReplaceAll(ReplaceAll(ReplaceAll(ReplaceAll(ReplaceAll(s, "&", "&amp;"), "<", "&lt;"), ">", "&gt;"), "\"", "&quot;"), "'", "&apos;")
  }

  /** Replacing a single character works on each part of a string alone. */
  lemma {:induction false} ReplaceCharConcat(a: string, b: string, c: char, to: string)
    ensures ReplaceAll(a + b, [c], to) == ReplaceAll(a, [c], to) + ReplaceAll(b, [c], to)
    decreases |a|
  {
    if a != [] {
      assert (a + b)[1..] == a[1..] + b;
      assert ([c] <= a + b) == ([c] <= a);
      ReplaceCharConcat(a[1..], b, c, to);
    } else {
      assert a + b == b;
    }
  }

  lemma EscapeChainConcat(a: string, b: string)
    ensures EscapeChain(a + b) == EscapeChain(a) + EscapeChain(b)
  {
    ReplaceCharConcat(a, b, '&', "&amp;");
    var a1, b1 := ReplaceAll(a, "&", "&amp;"), ReplaceAll(b, "&", "&amp;");
    ReplaceCharConcat(a1, b1, '<', "&lt;");
    var a2, b2 := ReplaceAll(a1, "<", "&lt;"), ReplaceAll(b1, "<", "&lt;");
    ReplaceCharConcat(a2, b2, '>', "&gt;");
    var a3, b3 := ReplaceAll(a2, ">", "&gt;"), ReplaceAll(b2, ">", "&gt;");
    ReplaceCharConcat(a3, b3, '"', "&quot;");
    var a4, b4 := ReplaceAll(a3, "\"", "&quot;"), ReplaceAll(b3, "\"", "&quot;");
    ReplaceCharConcat(a4, b4, '\'', "&apos;");
  }

  /** Replacing a character the string does not hold changes nothing. */
  lemma {:induction false} ReplaceAbsent(s: string, c: char, to: string)
    requires forall i :: 0 <= i < |s| ==> s[i] != c
    ensures ReplaceAll(s, [c], to) == s
  {
    if s != [] {
      assert !([c] <= s) by { assert s[0] != c; }
      ReplaceAbsent(s[1..], c, to);
    }
  }

  lemma ReplaceOne(c: char, d: char, to: string)
    ensures ReplaceAll([d], [c], to) == if d == c then to else [d]
  {
    assert [d][1..] == [];
    assert [d][..1] == [d];
    if d != c {
      assert [c][0] != [d][0];
    }
  }

  lemma EscapeChainAmp()
    ensures EscapeChain(['&']) == "&amp;"
  {
    var s: string := ['&'];
    ReplaceOne('&', '&', "&amp;");
    s := "&amp;";
    ReplaceAbsent(s, '<', "&lt;");
    ReplaceAbsent(s, '>', "&gt;");
    ReplaceAbsent(s, '"', "&quot;");
    ReplaceAbsent(s, '\'', "&apos;");
  }

  lemma EscapeChainLt()
    ensures EscapeChain(['<']) == "&lt;"
  {
    var s: string := ['<'];
    ReplaceOne('&', '<', "&amp;");
    assert ReplaceAll(s, "&", "&amp;") == s;
    ReplaceOne('<', '<', "&lt;");
    s := "&lt;";
    ReplaceAbsent(s, '>', "&gt;");
    ReplaceAbsent(s, '"', "&quot;");
    ReplaceAbsent(s, '\'', "&apos;");
  }

  lemma EscapeChainGt()
    ensures EscapeChain(['>']) == "&gt;"
  {
    var s: string := ['>'];
    ReplaceOne('&', '>', "&amp;");
    assert ReplaceAll(s, "&", "&amp;") == s;
    ReplaceOne('<', '>', "&lt;");
    assert ReplaceAll(s, "<", "&lt;") == s;
    ReplaceOne('>', '>', "&gt;");
    s := "&gt;";
    ReplaceAbsent(s, '"', "&quot;");
    ReplaceAbsent(s, '\'', "&apos;");
  }

  lemma EscapeChainQuot()
    ensures EscapeChain(['"']) == "&quot;"
  {
    var s: string := ['"'];
    ReplaceOne('&', '"', "&amp;");
    assert ReplaceAll(s, "&", "&amp;") == s;
    ReplaceOne('<', '"', "&lt;");
    assert ReplaceAll(s, "<", "&lt;") == s;
    ReplaceOne('>', '"', "&gt;");
    assert ReplaceAll(s, ">", "&gt;") == s;
    ReplaceOne('"', '"', "&quot;");
    s := "&quot;";
    ReplaceAbsent(s, '\'', "&apos;");
  }

  lemma EscapeChainApos()
    ensures EscapeChain(['\'']) == "&apos;"
  {
    var s: string := ['\''];
    ReplaceOne('&', '\'', "&amp;");
    assert ReplaceAll(s, "&", "&amp;") == s;
    ReplaceOne('<', '\'', "&lt;");
    assert ReplaceAll(s, "<", "&lt;") == s;
    ReplaceOne('>', '\'', "&gt;");
    assert ReplaceAll(s, ">", "&gt;") == s;
    ReplaceOne('"', '\'', "&quot;");
    assert ReplaceAll(s, "\"", "&quot;") == s;
    ReplaceOne('\'', '\'', "&apos;");
    s := "&apos;";
  }

  lemma EscapeChainPlain(c: char)
    requires c != '&' && c != '<' && c != '>' && c != '"' && c != '\''
    ensures EscapeChain([c]) == [c]
  {
    ReplaceOne('&', c, "&amp;");
    ReplaceOne('<', c, "&lt;");
    ReplaceOne('>', c, "&gt;");
    ReplaceOne('"', c, "&quot;");
    ReplaceOne('\'', c, "&apos;");
  }

  lemma EscapeChainChar(c: char)
    ensures EscapeChain([c]) == EscapeChar(c)
  {
    if c == '&' {
      EscapeChainAmp();
    } else if c == '<' {
      EscapeChainLt();
    } else if c == '>' {
      EscapeChainGt();
    } else if c == '"' {
      EscapeChainQuot();
    } else if c == '\'' {
      EscapeChainApos();
    } else {
      EscapeChainPlain(c);
    }
  }

  /** The chain of replacements is the per-character escaping. */
  lemma {:induction false} EscapeChainIsRef(s: string)
    ensures EscapeChain(s) == EscapeRef(s)
  {
    if s != [] {
      assert s == [s[0]] + s[1..];
      EscapeChainConcat([s[0]], s[1..]);
      EscapeChainChar(s[0]);
      EscapeChainIsRef(s[1..]);
    }
  }

  /** `escape`: five calls of `replace`, ampersand first. */
  method Escape(str: string) returns (r: string)
    ensures r == EscapeRef(str)
    ensures Unmarked(r)
  {
    r := Replace(str, "&", "&amp;");
    r := Replace(r, "<", "&lt;");
    r := Replace(r, ">", "&gt;");
    r := Replace(r, "\"", "&quot;");
    r := Replace(r, "'", "&apos;");
    EscapeChainIsRef(str);
    EscapeRefUnmarked(str);
  }

  // ---------------------------------------------------------------------
  // format_cdata

  const Open: string := "<![CDATA["
  const Close: string := "]]>"
  /** What `format_cdata` writes for a terminator in the payload: the first
      bracket stays in one section, the `]>` starts the next. */
  const Split: string := "]]]><![CDATA[]>"

  /** The character data an XML reader takes from a run of CDATA sections:
      each section's text ends at its first terminator, and the texts of
      adjacent sections are joined. */
  function CdataText(x: string): Option<string>
    decreases |x|
  {
    if !(Open <= x) then None
    else match Find(x, Close, |Open|)
      case None => None
      case Some(p) =>
        var rest := x[p + |Close|..];
        if rest == [] then Some(x[|Open| .. p])
        else match CdataText(rest)
          case None => None
          case Some(more) => Some(x[|Open| .. p] + more)
  }

  predicate NoClose(t: string)
  {
    forall j: nat :: j < |t| ==> !OccursAt(t, Close, j)
  }

  /** The first occurrence, found. */
  lemma FindIs(s: string, from: string, offset: nat, p: nat)
    requires offset <= p && OccursAt(s, from, p)
    requires forall q: nat :: offset <= q < p ==> !OccursAt(s, from, q)
    ensures Find(s, from, offset) == Some(p)
  {
  }

  /** A terminator cannot start inside t and end in a terminator that
      follows t, because `]]>` has no proper suffix that is a prefix. */
  lemma CloseBoundary(t: string, u: string)
    requires NoClose(t)
    ensures forall j: nat :: j < |t| ==> !OccursAt(t + Close + u, Close, j)
  {
    var x := t + Close + u;
    forall j: nat | j < |t|
      ensures !OccursAt(x, Close, j)
    {
      if j + 3 <= |t| {
        assert x[j .. j + 3] == t[j .. j + 3];
        assert !OccursAt(t, Close, j);
      } else {
        assert x[j + 2] == ']';
      }
    }
  }

  /** The section opened before t ends right behind t. */
  lemma FirstClose(t: string, u: string)
    requires NoClose(t)
    ensures Find(Open + t + Close + u, Close, |Open|) == Some(|Open| + |t|)
  {
    var x := Open + t + Close + u;
    assert x[|Open|..] == t + Close + u;
    CloseBoundary(t, u);
    forall q: nat | |Open| <= q < |Open| + |t|
      ensures !OccursAt(x, Close, q)
    {
      OccursShift(x, Close, |Open|, q - |Open|);
    }
    assert x[|Open| + |t| .. |Open| + |t| + |Close|] == Close;
    FindIs(x, Close, |Open|, |Open| + |t|);
  }

  /** One section holding t, followed by u. */
  lemma CdataFrame(t: string, u: string)
    requires NoClose(t)
    ensures CdataText(Open + t + Close + u)
         == if u == [] then Some(t)
            else if CdataText(u).Some? then Some(t + CdataText(u).value)
            else None
  {
    var x := Open + t + Close + u;
    FirstClose(t, u);
    assert Open <= x;
    assert x[|Open| + |t| + |Close|..] == u;
    assert x[|Open| .. |Open| + |t|] == t;
  }

  lemma OccursInPrefix(s: string, k: nat, j: nat)
    requires k <= |s| && OccursAt(s[..k], Close, j)
    ensures OccursAt(s, Close, j)
  {
    assert s[..k][j .. j + 3] == s[j .. j + 3];
  }

  /** The payload is used up: one section holding t. */
  lemma FrameEnd(t: string)
    requires forall j: nat :: j < |t| ==> !OccursAt(t, Close, j)
    ensures CdataText(Open + t + ReplaceAll([], Close, Split) + Close) == Some(t)
  {
    CdataFrame(t, []);
    assert Open + t + ReplaceAll([], Close, Split) + Close == Open + t + Close + [];
  }

  /** A terminator at the front of the payload becomes `]]` closing this
      section and `]>` opening the next. */
  lemma FrameSplit(t: string, s: string)
    requires forall j: nat :: j < |t| ==> !OccursAt(t + s, Close, j)
    requires Close <= s
    requires CdataText(Open + "]>" + ReplaceAll(s[|Close|..], Close, Split) + Close)
          == Some("]>" + s[|Close|..])
    ensures CdataText(Open + t + ReplaceAll(s, Close, Split) + Close) == Some(t + s)
  {
    var t' := t + "]";
    var rest := s[|Close|..];
    assert t' == (t + s)[..|t| + 1];
    forall j: nat | j < |t'|
      ensures !OccursAt(t', Close, j)
    {
      if OccursAt(t', Close, j) {
        OccursInPrefix(t + s, |t| + 1, j);
      }
    }
    var r := ReplaceAll(rest, Close, Split);
    assert ReplaceAll(s, Close, Split) == Split + r;
    var u := Open + "]>" + r + Close;
    CdataFrame(t', u);
    SplitParts();
    Regroup(Open, t, "]", Close, "]>", r);
    assert s == "]" + "]>" + rest by { assert s == Close + rest; }
    Regroup2(t, "]", "]>", rest);
  }

  /** The section after a split begins with `]>`, which cannot hold the
      start of a terminator. */
  lemma SplitTail(rest: string)
    ensures forall j: nat :: j < 2 ==> !OccursAt("]>" + rest, Close, j)
  {
    assert ("]>" + rest)[1] == '>';
  }

  /** Any other character at the front of the payload is copied. */
  lemma FrameCopy(t: string, s: string)
    requires s != [] && !(Close <= s)
    requires CdataText(Open + (t + [s[0]]) + ReplaceAll(s[1..], Close, Split) + Close)
          == Some((t + [s[0]]) + s[1..])
    ensures CdataText(Open + t + ReplaceAll(s, Close, Split) + Close) == Some(t + s)
  {
    assert (t + [s[0]]) + s[1..] == t + s;
    var r := ReplaceAll(s[1..], Close, Split);
    assert ReplaceAll(s, Close, Split) == [s[0]] + r;
    Regroup3(Open, t, [s[0]], r, Close);
  }

  lemma Regroup3(o: string, t: string, a: string, r: string, c: string)
    ensures o + t + (a + r) + c == o + (t + a) + r + c
  {
  }

  /** Copying a non-terminator keeps the emitted text free of terminators. */
  lemma CopyKeepsClean(t: string, s: string)
    requires s != [] && !(Close <= s)
    requires forall j: nat :: j < |t| ==> !OccursAt(t + s, Close, j)
    ensures forall j: nat :: j < |t| + 1 ==> !OccursAt((t + [s[0]]) + s[1..], Close, j)
  {
    assert (t + [s[0]]) + s[1..] == t + s;
    assert (t + s)[|t|..] == s;
    PrefixOccurs(s, Close);
    OccursShift(t + s, Close, |t|, 0);
  }

  /** The text already emitted (t, free of terminators) followed by the
      replaced rest of the payload reads back as t + s. */
  lemma {:induction false} FrameText(t: string, s: string)
    requires forall j: nat :: j < |t| ==> !OccursAt(t + s, Close, j)
    ensures CdataText(Open + t + ReplaceAll(s, Close, Split) + Close) == Some(t + s)
    decreases |s|
  {
    if s == [] {
      assert t + s == t;
      FrameEnd(t);
    } else if Close <= s {
      SplitTail(s[|Close|..]);
      FrameText("]>", s[|Close|..]);
      FrameSplit(t, s);
    } else {
      CopyKeepsClean(t, s);
      FrameText(t + [s[0]], s[1..]);
      FrameCopy(t, s);
    }
  }

  lemma SplitParts()
    ensures Split == "]" + Close + Open + "]>"
  {
    var w := "]" + Close + Open + "]>";
    assert |w| == |Split|;
    forall i | 0 <= i < |w|
      ensures w[i] == Split[i]
    {
    }
  }

  lemma Regroup(o: string, t: string, a: string, c: string, b: string, r: string)
    ensures o + t + (a + c + o + b + r) + c == o + (t + a) + c + (o + b + r + c)
  {
  }

  lemma Regroup2(t: string, a: string, b: string, r: string)
    ensures t + (a + b + r) == t + a + (b + r)
  {
  }

  /** `format_cdata`: break every terminator in the payload across two
      sections and wrap the result in one section. */
  method FormatCdata(str: string) returns (r: string)
    ensures Open <= r && |r| >= |Open| + |Close| && r[|r| - |Close|..] == Close
    ensures CdataText(r) == Some(str)
  {
    var payload := Replace(str, Close, Split);
    r := Open + payload + Close;
    FrameText([], str);
    assert [] + str == str;
    assert Open + [] + payload == Open + payload;
  }
}
