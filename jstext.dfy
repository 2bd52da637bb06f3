/**
 * The JavaScript string built-ins the 4HEAT code relies on (trim, startsWith, slice, split),
 * and the frame every message of the protocol uses: a bracketed list of quoted fields,
 * `["TAG","count","field",...]`, read back without a JSON parser by splitting on `","`.
 */
module JsText {
  import opened Wrappers

  /** The code points String.prototype.trim removes: ECMAScript WhiteSpace and LineTerminator. */
  predicate IsWhitespace(c: char) {
    c == ' ' || c == '\t' || c == '\n' || c == '\r' || c == '\U{000B}' || c == '\U{000C}'
    || c == '\U{00A0}' || c == '\U{1680}' || ('\U{2000}' <= c <= '\U{200A}')
    || c == '\U{2028}' || c == '\U{2029}' || c == '\U{202F}' || c == '\U{205F}'
    || c == '\U{3000}' || c == '\U{FEFF}'
  }

  predicate AllWhitespace(s: string) {
    forall k :: 0 <= k < |s| ==> IsWhitespace(s[k])
  }

  /** String.prototype.trimStart: the suffix left after every leading whitespace character. */
  function TrimStart(s: string): (r: string)
    ensures |r| <= |s| && r == s[|s| - |r|..]
    ensures AllWhitespace(s[..|s| - |r|])
    ensures r == [] || !IsWhitespace(r[0])
  {
    if |s| > 0 && IsWhitespace(s[0]) then TrimStart(s[1..]) else s
  }

  /** String.prototype.trimEnd: the prefix left after every trailing whitespace character. */
  function TrimEnd(s: string): (r: string)
    ensures |r| <= |s| && r == s[..|r|]
    ensures AllWhitespace(s[|r|..])
    ensures r == [] || !IsWhitespace(r[|r| - 1])
  {
    if |s| > 0 && IsWhitespace(s[|s| - 1]) then TrimEnd(s[..|s| - 1]) else s
  }

  /** String.prototype.trim. */
  function Trim(s: string): (r: string)
    ensures r == [] || (!IsWhitespace(r[0]) && !IsWhitespace(r[|r| - 1]))
  {
    TrimEnd(TrimStart(s))
  }

  lemma {:induction false} TrimStartPadded(ws: string, u: string)
    requires AllWhitespace(ws)
    ensures TrimStart(ws + u) == TrimStart(u)
    decreases |ws|
  {
    if |ws| == 0 {
      assert ws + u == u;
    } else {
      var s := ws + u;
      assert s[0] == ws[0];
      TrimStartDropsOne(s);
      assert s[1..] == ws[1..] + u;
      WhitespaceTail(ws);
      TrimStartPadded(ws[1..], u);
    }
  }

  /** One leading whitespace character makes no difference to trimStart. */
  lemma TrimStartDropsOne(s: string)
    requires |s| > 0 && IsWhitespace(s[0])
    ensures TrimStart(s) == TrimStart(s[1..])
  {
  }

  lemma WhitespaceTail(ws: string)
    requires |ws| > 0 && AllWhitespace(ws)
    ensures AllWhitespace(ws[1..])
  {
    var w := ws[1..];
    forall k | 0 <= k < |w| ensures IsWhitespace(w[k]) {
      assert w[k] == ws[k + 1];
    }
  }

  lemma {:induction false} TrimEndPadded(u: string, ws: string)
    requires AllWhitespace(ws)
    ensures TrimEnd(u + ws) == TrimEnd(u)
    decreases |ws|
  {
    if |ws| == 0 {
      assert u + ws == u;
    } else {
      var s := u + ws;
      assert s[|s| - 1] == ws[|ws| - 1] && IsWhitespace(ws[|ws| - 1]);
      assert TrimEnd(s) == TrimEnd(s[..|s| - 1]);
      assert s[..|s| - 1] == u + ws[..|ws| - 1];
      var w := ws[..|ws| - 1];
      assert AllWhitespace(w) by {
        forall k | 0 <= k < |w| ensures IsWhitespace(w[k]) {
          assert w[k] == ws[k] && IsWhitespace(ws[k]);
        }
      }
      TrimEndPadded(u, ws[..|ws| - 1]);
    }
  }

  /** Text padded on both sides with whitespace trims back to itself. */
  lemma TrimPadded(ws1: string, t: string, ws2: string)
    requires AllWhitespace(ws1) && AllWhitespace(ws2)
    requires |t| > 0 && !IsWhitespace(t[0]) && !IsWhitespace(t[|t| - 1])
    ensures Trim(ws1 + t + ws2) == t
  {
    assert ws1 + t + ws2 == ws1 + (t + ws2);
    TrimStartPadded(ws1, t + ws2);
    assert TrimStart(t + ws2) == t + ws2;
    TrimEndPadded(t, ws2);
  }

  /** String.prototype.startsWith. */
  predicate StartsWith(s: string, prefix: string) {
    |prefix| <= |s| && s[..|prefix|] == prefix
  }

  /** String.prototype.includes. */
  predicate Includes(s: string, part: string)
    decreases |s|
  {
    StartsWith(s, part) || (|s| > 0 && Includes(s[1..], part))
  }

  /** String.prototype.slice (and substring) for non-negative bounds: out-of-range bounds are clamped. */
  function Slice(s: string, from: nat, to: nat): (r: string)
    ensures |r| <= |s|
    ensures from <= to <= |s| ==> r == s[from..to]
    ensures |s| <= from ==> r == []
  {
    var end := if to <= |s| then to else |s|;
    if from < end then s[from..end] else []
  }

  /** `t.slice(1, -1)`: the text between the first and the last character. */
  function Inner(t: string): (r: string)
    ensures |t| >= 2 ==> r == t[1..|t| - 1]
  {
    if |t| >= 2 then t[1..|t| - 1] else []
  }

  /** The field separator of the frame: `","`. */
  const Sep: string := "\",\""

  /** Whether the separator occurs in `s`. */
  predicate HasSep(s: string)
    decreases |s|
  {
    |s| >= 3 && (s[..3] == Sep || HasSep(s[1..]))
  }

  /** Fields joined with the separator (Array.prototype.join). */
  function Join(fs: seq<string>): string
  {
    if |fs| == 0 then [] else if |fs| == 1 then fs[0] else fs[0] + Sep + Join(fs[1..])
  }

  /**
   * String.prototype.split on `","`: occurrences are cut from left to right and
   * never overlap. Nothing is lost, since joining the pieces gives back the text.
   */
  function Split(s: string): (r: seq<string>)
    ensures |r| >= 1
    ensures Join(r) == s
    decreases |s|
  {
    if |s| < 3 then [s]
    else if s[..3] == Sep then [[]] + Split(s[3..])
    else
      var rest := Split(s[1..]);
      [[s[0]] + rest[0]] + rest[1..]
  }

  /** A field that, written between its quotes, holds no separator, so splitting finds its borders. */
  predicate Plain(f: string) {
    !HasSep("\"" + f + "\"")
  }

  /** The frame the device and the builders write: `["f0","f1",...]`. */
  function Frame(fs: seq<string>): string {
    "[\"" + Join(fs) + "\"]"
  }

  function StripLeadingQuote(s: string): string {
    if |s| > 0 && s[0] == '"' then s[1..] else s
  }

  function StripTrailingQuote(s: string): string {
    if |s| > 0 && s[|s| - 1] == '"' then s[..|s| - 1] else s
  }

  /** `parts[0] = parts[0].replace(/^"/, '')`, then the same for a trailing quote on the last part. */
  function Unquote(parts: seq<string>): (r: seq<string>)
    requires |parts| >= 1
    ensures |r| == |parts|
  {
    var p := parts[0 := StripLeadingQuote(parts[0])];
    p[|p| - 1 := StripTrailingQuote(p[|p| - 1])]
  }

  /**
   * The envelope reading shared by parse2WLResponse, parseCCGResponse and parseCF4Response:
   * trim, demand the prefix `["TAG"`, drop the brackets, split on `","` and strip the
   * outer quotes. None stands for the `null` the source returns on a wrong prefix.
   */
  function Fields(raw: string, tag: string): (r: Option<seq<string>>)
    ensures r.Some? <==> StartsWith(Trim(raw), "[\"" + tag + "\"")
    ensures r.Some? ==> |r.value| >= 1
  {
    var trimmed := Trim(raw);
    if !StartsWith(trimmed, "[\"" + tag + "\"") then None
    else Some(Unquote(Split(Inner(trimmed))))
  }

  lemma HasSepSuffix(s: string)
    requires |s| >= 1 && HasSep(s[1..])
    ensures HasSep(s)
  {
  }

  /** A leading field free of the separator, even across its closing quote, is cut off whole. */
  lemma {:induction false} SplitAfterField(a: string, b: string)
    requires !HasSep(a + "\"")
    ensures Split(a + Sep + b) == [a] + Split(b)
    decreases |a|
  {
    var s := a + Sep + b;
    if a == [] {
      assert s[..3] == Sep && s[3..] == b;
    } else {
      if |a| >= 2 {
        assert s[..3] == (a + "\"")[..3];
      } else {
        assert s[2] == ',';
      }
      assert s[..3] != Sep;
      var a' := a[1..];
      assert (a + "\"")[1..] == a' + "\"";
      if HasSep(a' + "\"") {
        HasSepSuffix(a + "\"");
      }
      assert s[1..] == a' + Sep + b;
      SplitAfterField(a', b);
      assert [s[0]] + a' == a;
    }
  }

  /** Text without a separator splits into itself. */
  lemma {:induction false} SplitWhole(a: string)
    requires !HasSep(a)
    ensures Split(a) == [a]
    decreases |a|
  {
    if |a| >= 3 {
      if HasSep(a[1..]) {
        HasSepSuffix(a);
      }
      SplitWhole(a[1..]);
      assert [a[0]] + a[1..] == a;
    }
  }

  /** Splitting undoes joining when no piece lets the separator straddle a border. */
  lemma {:induction false} SplitJoin(ps: seq<string>)
    requires |ps| >= 1
    requires forall i :: 0 <= i < |ps| - 1 ==> !HasSep(ps[i] + "\"")
    requires !HasSep(ps[|ps| - 1])
    ensures Split(Join(ps)) == ps
    decreases |ps|
  {
    if |ps| == 1 {
      SplitWhole(ps[0]);
    } else {
      SplitAfterField(ps[0], Join(ps[1..]));
      SplitJoin(ps[1..]);
    }
  }

  lemma JoinPrepend(c: string, fs: seq<string>)
    requires |fs| >= 1
    ensures c + Join(fs) == Join(fs[0 := c + fs[0]])
  {
    var gs := fs[0 := c + fs[0]];
    if |fs| > 1 {
      assert gs[1..] == fs[1..];
    }
  }

  lemma {:induction false} JoinAppend(fs: seq<string>, c: string)
    requires |fs| >= 1
    ensures Join(fs) + c == Join(fs[|fs| - 1 := fs[|fs| - 1] + c])
    decreases |fs|
  {
    var gs := fs[|fs| - 1 := fs[|fs| - 1] + c];
    if |fs| > 1 {
      JoinAppend(fs[1..], c);
      assert gs[1..] == fs[1..][|fs| - 2 := fs[|fs| - 1] + c];
    }
  }

  /** The prefix check of Fields accepts every frame whose first field is the tag. */
  lemma FrameStartsWithTag(fs: seq<string>)
    requires |fs| >= 1
    ensures StartsWith(Frame(fs), "[\"" + fs[0] + "\"")
  {
    var p := "[\"" + fs[0] + "\"";
    if |fs| == 1 {
      assert Frame(fs) == p + "]";
    } else {
      assert Frame(fs) == p + ",\"" + Join(fs[1..]) + "\"]";
    }
  }

  /** The inner text of a frame, with the quotes of the first and the last field attached. */
  function QuoteEnds(fs: seq<string>): (ps: seq<string>)
    requires |fs| >= 1
    ensures |ps| == |fs|
  {
    var qs := fs[0 := "\"" + fs[0]];
    qs[|qs| - 1 := qs[|qs| - 1] + "\""]
  }

  lemma InnerOfFrame(fs: seq<string>)
    requires |fs| >= 1
    ensures Inner(Frame(fs)) == Join(QuoteEnds(fs))
  {
    var qs := fs[0 := "\"" + fs[0]];
    JoinPrepend("\"", fs);
    JoinAppend(qs, "\"");
    assert Inner(Frame(fs)) == "\"" + Join(fs) + "\"";
  }

  lemma SplitQuoteEnds(fs: seq<string>)
    requires |fs| >= 1
    requires forall i :: 0 <= i < |fs| ==> Plain(fs[i])
    ensures Split(Join(QuoteEnds(fs))) == QuoteEnds(fs)
  {
    var n := |fs|;
    var ps := QuoteEnds(fs);
    forall i | 0 <= i < n - 1
      ensures !HasSep(ps[i] + "\"")
    {
      if i > 0 {
        assert ("\"" + fs[i] + "\"")[1..] == ps[i] + "\"";
        if HasSep(ps[i] + "\"") {
          HasSepSuffix("\"" + fs[i] + "\"");
        }
      } else {
        assert ps[i] + "\"" == "\"" + fs[0] + "\"";
      }
    }
    if n > 1 {
      assert ("\"" + fs[n - 1] + "\"")[1..] == ps[n - 1];
      if HasSep(ps[n - 1]) {
        HasSepSuffix("\"" + fs[n - 1] + "\"");
      }
    } else {
      assert ps[0] == "\"" + fs[0] + "\"";
    }
    SplitJoin(ps);
  }

  lemma UnquoteQuoteEnds(fs: seq<string>)
    requires |fs| >= 1
    ensures Unquote(QuoteEnds(fs)) == fs
  {
    var n := |fs|;
    var ps := QuoteEnds(fs);
    if n > 1 {
      assert ps[0] == "\"" + fs[0] && ps[0][1..] == fs[0];
      assert ps[n - 1] == fs[n - 1] + "\"" && ps[n - 1][..|ps[n - 1]| - 1] == fs[n - 1];
    } else {
      assert ps[0] == "\"" + fs[0] + "\"";
      assert ps[0][1..] == fs[0] + "\"";
      assert (fs[0] + "\"")[..|fs[0]|] == fs[0];
    }
  }

  /**
   * The envelope reading inverts the frame: a frame of plain fields whose first field is
   * the tag, with any whitespace around it, reads back as exactly its fields.
   */
  lemma FieldsOfFrame(ws1: string, fs: seq<string>, ws2: string)
    requires |fs| >= 1
    requires forall i :: 0 <= i < |fs| ==> Plain(fs[i])
    requires AllWhitespace(ws1) && AllWhitespace(ws2)
    ensures Fields(ws1 + Frame(fs) + ws2, fs[0]) == Some(fs)
  {
    TrimPadded(ws1, Frame(fs), ws2);
    FrameStartsWithTag(fs);
    InnerOfFrame(fs);
    SplitQuoteEnds(fs);
    UnquoteQuoteEnds(fs);
  }

  /** Text with no quote-comma-quote run holds no separator. */
  lemma {:induction false} NoSepWithoutRun(s: string)
    requires forall i :: 0 <= i && i + 2 < |s| ==> !(s[i] == '"' && s[i + 1] == ',' && s[i + 2] == '"')
    ensures !HasSep(s)
    decreases |s|
  {
    if |s| >= 3 {
      assert s[..3] != Sep by {
        assert !(s[0] == '"' && s[1] == ',' && s[2] == '"');
      }
      var t := s[1..];
      forall i | 0 <= i && i + 2 < |t|
        ensures !(t[i] == '"' && t[i + 1] == ',' && t[i + 2] == '"')
      {
        assert t[i] == s[i + 1] && t[i + 1] == s[i + 2] && t[i + 2] == s[i + 3];
      }
      NoSepWithoutRun(t);
    }
  }

  /** A field without quotes is plain unless it is the lone comma. */
  lemma QuoteFreePlain(f: string)
    requires forall k :: 0 <= k < |f| ==> f[k] != '"'
    requires f != ","
    ensures Plain(f)
  {
    var s := "\"" + f + "\"";
    forall i | 0 <= i && i + 2 < |s|
      ensures !(s[i] == '"' && s[i + 1] == ',' && s[i + 2] == '"')
    {
      if i > 0 {
        assert s[i] == f[i - 1];
      } else if |f| >= 2 {
        assert s[2] == f[1];
      } else {
        assert s[1] == f[0] && [f[0]] == f;
      }
    }
    NoSepWithoutRun(s);
  }

  /** A two-field frame written out. */
  lemma Frame2(a: string, b: string)
    ensures Frame([a, b]) == "[\"" + a + "\",\"" + b + "\"]"
  {
    assert [a, b][1..] == [b];
    assert Join([a, b]) == a + Sep + b;
  }

  /** A three-field frame written out. */
  lemma Frame3(a: string, b: string, c: string)
    ensures Frame([a, b, c]) == "[\"" + a + "\",\"" + b + "\",\"" + c + "\"]"
  {
    assert [a, b, c][1..] == [b, c];
    assert [b, c][1..] == [c];
    assert Join([c]) == c;
    assert Join([b, c]) == b + Sep + c;
    assert Join([a, b, c]) == a + Sep + (b + Sep + c);
  }
}
