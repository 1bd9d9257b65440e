/**
 * The query-string dispatcher `sendfile_query_string` (sendfile-fcgi.c:174-197)
 * and `sendfile_field` (:166-172).
 *
 * The pure part states what the C code computes: every '+' becomes a space
 * (`ReplacePlus`), the text is cut into the tokens `strtok` yields
 * (`Tokens`), each token is decoded and split at its first '='
 * (`ParseToken`), each token's fate is one `Outcome`, and the first token
 * that answers or aborts ends the loop (`First`). The imperative part
 * (`ProcessQuery`) is the C function's two loops over the query buffer,
 * proved against `QueryResponse`.
 */
module Query {
  import opened Wrappers
  import opened CStrings
  import opened Decoder
  import opened Response

  // ---------------------------------------------------------------------------
  // The '+' pass (:178-180)
  // ---------------------------------------------------------------------------

  function PlusToSpace(c: char): char
  {
    if c == '+' then ' ' else c
  }

  /** The query after the first loop: each '+' replaced by a space. */
  function ReplacePlus(s: string): (r: string)
  {
    seq(|s|, i requires 0 <= i < |s| => PlusToSpace(s[i]))
  }

  /** The pass leaves no '+', turns each '+' into a space, keeps every other character and the NULs. */
  lemma ReplacePlusSpec(s: string)
    ensures |ReplacePlus(s)| == |s| && '+' !in ReplacePlus(s)
    ensures forall i :: 0 <= i < |s| ==>
              (s[i] == '+' ==> ReplacePlus(s)[i] == ' ') && (s[i] != '+' ==> ReplacePlus(s)[i] == s[i])
    ensures NUL in ReplacePlus(s) <==> NUL in s
  {
    var r := ReplacePlus(s);
    if NUL in r {
      var i :| 0 <= i < |r| && r[i] == NUL;
      assert s[i] == NUL;
    }
    if NUL in s {
      var i :| 0 <= i < |s| && s[i] == NUL;
      assert r[i] == NUL;
    }
  }

  // ---------------------------------------------------------------------------
  // strtok(qstr, "&;") (:182)
  // ---------------------------------------------------------------------------

  predicate IsDelim(c: char)
  {
    c == '&' || c == ';'
  }

  /** `strcspn(s, "&;")`: the length of the leading run without a delimiter. */
  function Span(s: string): (e: nat)
    ensures e <= |s|
    ensures forall j :: 0 <= j < e ==> !IsDelim(s[j])
    ensures e < |s| ==> IsDelim(s[e])
  {
    if s == [] || IsDelim(s[0]) then 0 else 1 + Span(s[1..])
  }

  /** The tokens `strtok` yields, left to right: delimiters are skipped, a token runs up to the next delimiter. */
  function Tokens(s: string): (ts: seq<string>)
    ensures forall i :: 0 <= i < |ts| ==> ts[i] != [] && forall j :: 0 <= j < |ts[i]| ==> !IsDelim(ts[i][j])
    decreases |s|
  {
    if s == [] then []
    else if IsDelim(s[0]) then Tokens(s[1..])
    else
      var e := Span(s);
      [s[..e]] + Tokens(s[e..])
  }

  /** A token as `strtok` yields it: non-empty and free of delimiters. */
  predicate IsToken(t: string)
  {
    t != [] && forall j :: 0 <= j < |t| ==> !IsDelim(t[j])
  }

  /** The tokens written back out, separated by '&'. */
  function Join(ts: seq<string>): string
  {
    if ts == [] then []
    else if |ts| == 1 then ts[0]
    else ts[0] + "&" + Join(ts[1..])
  }

  /** The split undoes the join: tokens joined with '&' are read back as exactly those tokens. */
  lemma {:induction false} TokensOfJoin(ts: seq<string>)
    requires forall i :: 0 <= i < |ts| ==> IsToken(ts[i])
    ensures Tokens(Join(ts)) == ts
  {
    if ts == [] {
    } else {
      var t := ts[0];
      var s := Join(ts);
      var rest := if |ts| == 1 then [] else "&" + Join(ts[1..]);
      assert s == t + rest;
      SpanOfToken(t, rest);
      assert s[..|t|] == t && s[|t|..] == rest;
      if |ts| > 1 {
        TokensOfJoin(ts[1..]);
        assert rest[1..] == Join(ts[1..]);
        assert Tokens(rest) == Tokens(Join(ts[1..]));
        assert ts == [t] + ts[1..];
      }
    }
  }

  /** The span of a token followed by a delimiter or by nothing is the token. */
  lemma SpanOfToken(t: string, rest: string)
    requires IsToken(t) && (rest == [] || IsDelim(rest[0]))
    ensures Span(t + rest) == |t|
  {
    var s := t + rest;
    assert forall j :: 0 <= j < |t| ==> s[j] == t[j];
    assert rest != [] ==> s[|t|] == rest[0];
  }

  /** A token followed by a delimiter is the first token; the delimiter itself yields nothing. */
  lemma TokenThenDelim(t: string, d: char, rest: string)
    requires IsToken(t) && IsDelim(d)
    ensures Tokens(t + [d] + rest) == [t] + Tokens(rest)
  {
    var s := t + [d] + rest;
    assert s == t + ([d] + rest);
    SpanOfToken(t, [d] + rest);
    assert s[..|t|] == t && s[|t|..] == [d] + rest;
    assert ([d] + rest)[1..] == rest;
  }

  /** Delimiters before `a` are skipped. */
  lemma {:induction false} TokensSkip(s: string, c: nat, a: nat)
    requires c <= a <= |s| && forall j :: c <= j < a ==> IsDelim(s[j])
    ensures Tokens(s[c..]) == Tokens(s[a..])
    decreases a - c
  {
    if c < a {
      assert s[c..][1..] == s[c + 1..];
      TokensSkip(s, c + 1, a);
    }
  }

  /** A maximal run without delimiters starting at `a` is the next token. */
  lemma TokensTake(s: string, a: nat, e: nat)
    requires a < e <= |s|
    requires forall j :: a <= j < e ==> !IsDelim(s[j])
    requires e < |s| ==> IsDelim(s[e])
    ensures Tokens(s[a..]) == [s[a..e]] + Tokens(s[e..])
  {
    var x := s[a..];
    var k := Span(x);
    assert x[..k] == s[a..e] && x[k..] == s[e..];
  }

  // ---------------------------------------------------------------------------
  // One token (:183-193) and sendfile_field (:166-172)
  // ---------------------------------------------------------------------------

  /** A token, decoded and split: `Malformed` where the loop breaks. */
  datatype Parsed = Malformed | KeyValue(key: string, val: string)

  /**
   * `strchr(key, '=')` on the decoded C string `k` and the NUL written over
   * the '=': the key is the text before the first '=', the value the text
   * after it.
   */
  function SplitField(k: string): (p: Parsed)
    ensures p.KeyValue? <==> '=' in k
    ensures p.KeyValue? ==> k == p.key + "=" + p.val && '=' !in p.key
  {
    var i := Find(k, '=');
    if i == |k| then Malformed
    else
      assert k == k[..i] + "=" + k[i + 1..];
      KeyValue(k[..i], k[i + 1..])
  }

  /** One token up to `sendfile_field`: `urldecode`, then the split of the decoded C string. */
  function ParseToken(t: string): Parsed
  {
    match Decode(t)
    case None => Malformed
    case Some(d) => SplitField(CStr(d))
  }

  /** What the loop does with one token: break, go on to the next one, or answer and return true. */
  datatype Outcome = Abort | Skip | Reply(text: string)

  /** `sendfile_field`: only a `filename` field with a non-empty value is served. */
  function SendfileField(key: string, val: string, fs: FileSystem): Option<string>
  {
    if key == "filename" && val != [] then Some(SendfileFilename(val, fs)) else None
  }

  function FieldOutcome(t: string, fs: FileSystem): Outcome
  {
    match ParseToken(t)
    case Malformed => Abort
    case KeyValue(k, v) =>
      match SendfileField(k, v, fs)
      case Some(text) => Reply(text)
      case None => Skip
  }

  /** The outcome of each token, in order. */
  function Outcomes(ts: seq<string>, fs: FileSystem): (os: seq<Outcome>)
    ensures |os| == |ts|
  {
    if ts == [] then [] else [FieldOutcome(ts[0], fs)] + Outcomes(ts[1..], fs)
  }

  /** The strtok loop over the outcomes: the text of the first answer, None at a break or at the end. */
  function First(os: seq<Outcome>): Option<string>
  {
    if os == [] then None
    else
      match os[0]
      case Abort => None
      case Reply(text) => Some(text)
      case Skip => First(os[1..])
  }

  /** `sendfile_query_string(ctx, q)` for the query `q`: the text written, or None where it returns false. */
  function QueryResponse(q: string, fs: FileSystem): Option<string>
  {
    First(Outcomes(Tokens(ReplacePlus(q)), fs))
  }

  // ---------------------------------------------------------------------------
  // Properties of the dispatcher
  // ---------------------------------------------------------------------------

  lemma OutcomeAt(ts: seq<string>, fs: FileSystem, i: nat)
    requires i < |ts|
    ensures Outcomes(ts, fs)[i] == FieldOutcome(ts[i], fs)
  {
    if i > 0 {
      assert ts[1..][i - 1] == ts[i];
      OutcomeAt(ts[1..], fs, i - 1);
    }
  }

  lemma {:induction false} OutcomesAppend(ts: seq<string>, more: seq<string>, fs: FileSystem)
    ensures Outcomes(ts + more, fs) == Outcomes(ts, fs) + Outcomes(more, fs)
  {
    if ts == [] {
      assert ts + more == more;
    } else {
      assert (ts + more)[0] == ts[0] && (ts + more)[1..] == ts[1..] + more;
      OutcomesAppend(ts[1..], more, fs);
    }
  }

  /** The split at the first '=' is unique. */
  lemma KeysAgree(k1: string, v1: string, k2: string, v2: string)
    requires '=' !in k1 && '=' !in k2
    requires k1 + "=" + v1 == k2 + "=" + v2
    ensures k1 == k2 && v1 == v2
  {
    var s := k1 + "=" + v1;
    FindPrefix(k1, "=" + v1, '=');
    assert s == k1 + ("=" + v1);
    assert s == k2 + ("=" + v2);
    FindPrefix(k2, "=" + v2, '=');
    assert s[..|k1|] == k1 && s[..|k2|] == k2;
    assert s[|k1| + 1..] == v1 && s[|k2| + 1..] == v2;
  }

  /** The decoded C string `filename=<v>` is, exactly, a `filename` field with value `v`. */
  lemma SplitFilename(k: string, v: string)
    ensures SplitField(k) == KeyValue("filename", v) <==> k == "filename=" + v
  {
    assert "filename" + "=" + v == "filename=" + v;
    if k == "filename=" + v {
      assert k[8] == '=';
      var p := SplitField(k);
      KeysAgree(p.key, p.val, "filename", v);
    }
  }

  /** The token `t` decodes to the C string `filename=<v>`, with a non-empty `v`. */
  predicate ServedAs(t: string, v: string)
  {
    Decode(t).Some? && v != [] && CStr(Decode(t).value) == "filename=" + v
  }

  /**
   * A token is served exactly when it decodes to the C string `filename=<v>`
   * with a non-empty `v`, and then the answer is the response for the path
   * `v`; the loop breaks exactly at a token that does not decode or whose
   * decoded C string holds no '='.
   */
  lemma FieldOutcomeCases(t: string, fs: FileSystem)
    ensures FieldOutcome(t, fs).Reply? <==> exists v :: ServedAs(t, v)
    ensures forall v :: ServedAs(t, v) ==> FieldOutcome(t, fs) == Reply(SendfileFilename(v, fs))
    ensures FieldOutcome(t, fs).Abort? <==> Decode(t).None? || '=' !in CStr(Decode(t).value)
  {
    if FieldOutcome(t, fs).Reply? {
      ReplyIsServed(t, fs);
    }
    forall v | ServedAs(t, v) ensures FieldOutcome(t, fs) == Reply(SendfileFilename(v, fs)) {
      ServedIsReply(t, v, fs);
    }
  }

  /** A token that is answered decodes to `filename=<v>` for the value `v` it split off. */
  lemma ReplyIsServed(t: string, fs: FileSystem)
    requires FieldOutcome(t, fs).Reply?
    ensures ServedAs(t, ParseToken(t).val)
  {
    var k := CStr(Decode(t).value);
    SplitFilename(k, SplitField(k).val);
  }

  /** A token that decodes to `filename=<v>` is answered with the response for `v`. */
  lemma ServedIsReply(t: string, v: string, fs: FileSystem)
    requires ServedAs(t, v)
    ensures FieldOutcome(t, fs) == Reply(SendfileFilename(v, fs))
  {
    SplitFilename(CStr(Decode(t).value), v);
  }

  /**
   * First match wins and failure is fast: the loop answers exactly when some
   * token is served and every token before it is skipped, and then the answer
   * is that token's.
   */
  lemma {:induction false} FirstMatch(os: seq<Outcome>)
    ensures First(os).Some? <==>
              exists i :: 0 <= i < |os| && os[i].Reply? && forall j :: 0 <= j < i ==> os[j] == Skip
    ensures forall i :: 0 <= i < |os| && os[i].Reply? && (forall j :: 0 <= j < i ==> os[j] == Skip) ==>
              First(os) == Some(os[i].text)
  {
    if os != [] {
      FirstMatch(os[1..]);
      if os[0] == Skip {
        if First(os).Some? {
          var i :| 0 <= i < |os[1..]| && os[1..][i].Reply? && forall j :: 0 <= j < i ==> os[1..][j] == Skip;
          assert os[i + 1].Reply?;
          assert forall j :: 0 <= j < i + 1 ==> os[j] == Skip by {
            forall j | 0 <= j < i + 1 ensures os[j] == Skip {
              if j > 0 { assert os[j] == os[1..][j - 1]; }
            }
          }
        }
        forall i | 0 <= i < |os| && os[i].Reply? && (forall j :: 0 <= j < i ==> os[j] == Skip)
          ensures First(os) == Some(os[i].text)
        {
          assert i > 0 && os[1..][i - 1] == os[i];
          assert forall j :: 0 <= j < i - 1 ==> os[1..][j] == Skip by {
            forall j | 0 <= j < i - 1 ensures os[1..][j] == Skip {
              assert os[1..][j] == os[j + 1];
            }
          }
        }
      } else if os[0].Abort? {
        forall i | 0 <= i < |os| && os[i].Reply?
          ensures exists j :: 0 <= j < i && os[j] != Skip
        {
          assert i > 0 && os[0] != Skip;
        }
      }
    }
  }

  /**
   * Over any list of tokens: the loop answers exactly when some token decodes
   * to `filename=<v>` with a non-empty `v` and every token before it is
   * skipped, and the answer is then the response for that `v`.
   */
  lemma FirstServed(ts: seq<string>, fs: FileSystem)
    ensures First(Outcomes(ts, fs)).Some? ==>
              exists i, v :: 0 <= i < |ts| && ServedAs(ts[i], v) && forall j :: 0 <= j < i ==> FieldOutcome(ts[j], fs) == Skip
    ensures (exists i, v :: 0 <= i < |ts| && ServedAs(ts[i], v) && forall j :: 0 <= j < i ==> FieldOutcome(ts[j], fs) == Skip) ==>
              First(Outcomes(ts, fs)).Some?
    ensures forall i, v :: 0 <= i < |ts| && ServedAs(ts[i], v) &&
                           (forall j :: 0 <= j < i ==> FieldOutcome(ts[j], fs) == Skip) ==>
              First(Outcomes(ts, fs)) == Some(SendfileFilename(v, fs))
    ensures First(Outcomes(ts, fs)).Some? ==>
              exists path :: path != [] && First(Outcomes(ts, fs)).value == SendfileFilename(path, fs)
  {
    var os := Outcomes(ts, fs);
    ServedAnswers(ts, fs);
    if exists i, v :: 0 <= i < |ts| && ServedAs(ts[i], v) && forall j :: 0 <= j < i ==> FieldOutcome(ts[j], fs) == Skip {
      var i, v :| 0 <= i < |ts| && ServedAs(ts[i], v) && forall j :: 0 <= j < i ==> FieldOutcome(ts[j], fs) == Skip;
      assert First(os) == Some(SendfileFilename(v, fs));
    }
    if First(os).Some? {
      FirstMatch(os);
      var i :| 0 <= i < |os| && os[i].Reply? && forall j :: 0 <= j < i ==> os[j] == Skip;
      OutcomeAt(ts, fs, i);
      FieldOutcomeCases(ts[i], fs);
      var v :| ServedAs(ts[i], v);
      SkippedTokens(ts, fs, i);
      assert 0 <= i < |ts| && ServedAs(ts[i], v) && forall j :: 0 <= j < i ==> FieldOutcome(ts[j], fs) == Skip;
    }
  }

  /** A served token with only skipped tokens before it gives the loop's answer. */
  lemma ServedAnswers(ts: seq<string>, fs: FileSystem)
    ensures forall i, v :: 0 <= i < |ts| && ServedAs(ts[i], v) &&
                           (forall j :: 0 <= j < i ==> FieldOutcome(ts[j], fs) == Skip) ==>
              First(Outcomes(ts, fs)) == Some(SendfileFilename(v, fs))
  {
    var os := Outcomes(ts, fs);
    FirstMatch(os);
    forall i, v | 0 <= i < |ts| && ServedAs(ts[i], v) && (forall j :: 0 <= j < i ==> FieldOutcome(ts[j], fs) == Skip)
      ensures First(os) == Some(SendfileFilename(v, fs))
    {
      OutcomeAt(ts, fs, i);
      FieldOutcomeCases(ts[i], fs);
      SkippedOutcomes(ts, fs, i);
    }
  }

  /** Tokens skipped one by one are skipped outcomes. */
  lemma SkippedOutcomes(ts: seq<string>, fs: FileSystem, i: nat)
    requires i <= |ts| && forall j :: 0 <= j < i ==> FieldOutcome(ts[j], fs) == Skip
    ensures forall j :: 0 <= j < i ==> Outcomes(ts, fs)[j] == Skip
  {
    forall j | 0 <= j < i ensures Outcomes(ts, fs)[j] == Skip {
      OutcomeAt(ts, fs, j);
    }
  }

  /** Skipped outcomes are tokens skipped one by one. */
  lemma SkippedTokens(ts: seq<string>, fs: FileSystem, i: nat)
    requires i <= |ts| && forall j :: 0 <= j < i ==> Outcomes(ts, fs)[j] == Skip
    ensures forall j :: 0 <= j < i ==> FieldOutcome(ts[j], fs) == Skip
  {
    forall j | 0 <= j < i ensures FieldOutcome(ts[j], fs) == Skip {
      OutcomeAt(ts, fs, j);
    }
  }

  /**
   * The dispatcher answers exactly when some token of the query decodes to
   * `filename=<v>` with a non-empty `v` and every token before it is skipped;
   * the answer is then the response of `sendfile_filename` for that `v`. So
   * whatever it writes is that response for a non-empty path.
   */
  lemma AnswerIsDelivery(q: string, fs: FileSystem)
    ensures var ts := Tokens(ReplacePlus(q));
            QueryResponse(q, fs).Some? <==>
              exists i, v :: 0 <= i < |ts| && ServedAs(ts[i], v) && forall j :: 0 <= j < i ==> FieldOutcome(ts[j], fs) == Skip
    ensures var ts := Tokens(ReplacePlus(q));
            forall i, v :: 0 <= i < |ts| && ServedAs(ts[i], v) &&
                           (forall j :: 0 <= j < i ==> FieldOutcome(ts[j], fs) == Skip) ==>
              QueryResponse(q, fs) == Some(SendfileFilename(v, fs))
    ensures QueryResponse(q, fs).Some? ==>
              exists path :: path != [] && QueryResponse(q, fs).value == SendfileFilename(path, fs)
  {
    FirstServed(Tokens(ReplacePlus(q)), fs);
  }

  /**
   * Fields after the one that decides are never looked at: joined with '&',
   * the first query answers or breaks for both, unless all its fields are
   * skipped, and then the second query decides.
   */
  lemma QueryConcat(q1: string, q2: string, fs: FileSystem)
    ensures var os := Outcomes(Tokens(ReplacePlus(q1)), fs);
            QueryResponse(q1 + "&" + q2, fs) ==
              if forall j :: 0 <= j < |os| ==> os[j] == Skip then QueryResponse(q2, fs) else QueryResponse(q1, fs)
  {
    var r1, r2 := ReplacePlus(q1), ReplacePlus(q2);
    assert ReplacePlus(q1 + "&" + q2) == r1 + ['&'] + r2 by {
      var r := ReplacePlus(q1 + "&" + q2);
      assert forall i :: 0 <= i < |r| ==> r[i] == (r1 + ['&'] + r2)[i];
    }
    TokensAppend(r1, '&', r2);
    var ts1, ts2 := Tokens(r1), Tokens(r2);
    OutcomesAppend(ts1, ts2, fs);
    var os1, os2 := Outcomes(ts1, fs), Outcomes(ts2, fs);
    if forall j :: 0 <= j < |os1| ==> os1[j] == Skip {
      FirstAllSkip(os1, os2);
    } else {
      FirstStopsEarly(os1, os2);
    }
  }

  /** A delimiter splits the text: the tokens of the two sides, one after the other. */
  lemma {:induction false} TokensAppend(a: string, d: char, b: string)
    requires IsDelim(d)
    ensures Tokens(a + [d] + b) == Tokens(a) + Tokens(b)
    decreases |a|
  {
    var s := a + [d] + b;
    if a == [] {
      assert s == [d] + b && s[1..] == b;
    } else if IsDelim(a[0]) {
      assert s[0] == a[0] && s[1..] == a[1..] + [d] + b;
      TokensAppend(a[1..], d, b);
    } else {
      var e := Span(a);
      SpanOfPrefix(a, [d] + b);
      assert s == a + ([d] + b);
      assert s[..e] == a[..e];
      if e == |a| {
        assert s[e..] == [d] + b && s[e..][1..] == b;
        assert a[e..] == [];
      } else {
        assert s[e..] == a[e..] + [d] + b;
        TokensAppend(a[e..], d, b);
      }
    }
  }

  /** Text that follows a delimiter does not lengthen the leading run. */
  lemma {:induction false} SpanOfPrefix(a: string, r: string)
    requires r != [] && IsDelim(r[0])
    ensures Span(a + r) == Span(a)
    decreases |a|
  {
    if a == [] {
      assert a + r == r;
    } else {
      assert (a + r)[0] == a[0] && (a + r)[1..] == a[1..] + r;
      if !IsDelim(a[0]) {
        SpanOfPrefix(a[1..], r);
      }
    }
  }

  /** Skipped fields in front do not change the answer. */
  lemma {:induction false} FirstAllSkip(os: seq<Outcome>, more: seq<Outcome>)
    requires forall j :: 0 <= j < |os| ==> os[j] == Skip
    ensures First(os + more) == First(more)
    decreases |os|
  {
    if os == [] {
      assert os + more == more;
    } else {
      assert (os + more)[0] == Skip && (os + more)[1..] == os[1..] + more;
      FirstAllSkip(os[1..], more);
    }
  }

  /** A character that has no special meaning anywhere on the way from the query to the path. */
  predicate Plain(c: char)
  {
    c != '%' && c != '+' && c != '&' && c != ';' && c != NUL
  }

  /** A plain query is one token that decodes to itself. */
  lemma PlainQuery(q: string)
    requires q != [] && forall i :: 0 <= i < |q| ==> Plain(q[i])
    ensures Tokens(ReplacePlus(q)) == [q] && Decode(q) == Some(q) && CStr(q) == q
  {
    assert ReplacePlus(q) == q;
    TokensOfJoin([q]);
    RunPlain(START, q);
  }

  /**
   * The query `filename=<path>`, for a non-empty path of plain characters,
   * serves that path.
   */
  lemma PlainFilenameQuery(path: string, fs: FileSystem)
    requires path != [] && forall i :: 0 <= i < |path| ==> Plain(path[i])
    ensures NUL !in "filename=" + path
    ensures QueryResponse("filename=" + path, fs) == Some(SendfileFilename(path, fs))
  {
    var q := "filename=" + path;
    assert forall i :: 0 <= i < |q| ==> Plain(q[i]) by {
      forall i | 0 <= i < |q| ensures Plain(q[i]) {
        if i >= 9 { assert q[i] == path[i - 9]; }
      }
    }
    PlainQuery(q);
    SplitFilename(q, path);
    assert FieldOutcome(q, fs) == Reply(SendfileFilename(path, fs));
    OutcomesOfCons(q, [], fs);
    FirstOfCons(Reply(SendfileFilename(path, fs)), []);
  }

  /** No token after the one that ends the loop is inspected. */
  lemma {:induction false} FirstStopsEarly(os: seq<Outcome>, more: seq<Outcome>)
    requires exists i :: 0 <= i < |os| && os[i] != Skip
    ensures First(os + more) == First(os)
  {
    assert (os + more)[0] == os[0];
    if os[0] == Skip {
      var i :| 0 <= i < |os| && os[i] != Skip;
      assert os[1..][i - 1] == os[i];
      assert (os + more)[1..] == os[1..] + more;
      FirstStopsEarly(os[1..], more);
    }
  }

  lemma FirstOfCons(o: Outcome, os: seq<Outcome>)
    ensures First([o] + os) == match o
                              case Abort => None
                              case Reply(text) => Some(text)
                              case Skip => First(os)
  {
    assert ([o] + os)[0] == o && ([o] + os)[1..] == os;
  }

  lemma OutcomesOfCons(t: string, ts: seq<string>, fs: FileSystem)
    ensures Outcomes([t] + ts, fs) == [FieldOutcome(t, fs)] + Outcomes(ts, fs)
  {
    assert ([t] + ts)[0] == t && ([t] + ts)[1..] == ts;
  }

  /** The token strtok finds next is the `k`th of the whole list, and the rest follow it. */
  lemma NextToken(ts: seq<string>, k: nat, t: string, rest: seq<string>)
    requires k <= |ts| && ts[k..] == [t] + rest
    ensures k < |ts| && ts[k] == t && ts[k + 1..] == rest
  {
    assert ts[k..][0] == t;
    assert ts[k + 1..] == ts[k..][1..];
  }

  /** One round of the strtok loop: the outcome at `k` decides, or the outcomes after it do. */
  lemma FirstAt(os: seq<Outcome>, k: nat)
    requires k < |os|
    ensures First(os[k..]) == match os[k]
                              case Abort => None
                              case Reply(text) => Some(text)
                              case Skip => First(os[k + 1..])
  {
    assert os[k..] == [os[k]] + os[k + 1..];
    FirstOfCons(os[k], os[k + 1..]);
  }

  // ---------------------------------------------------------------------------
  // The C function over its buffer
  // ---------------------------------------------------------------------------

  /** The first loop (:178-180) over the C string `buf[..n]`. */
  method PlusPass(buf: array<char>, ghost n: nat)
    requires n < buf.Length && buf[n] == NUL
    requires forall j :: 0 <= j < n ==> buf[j] != NUL
    modifies buf
    ensures forall i :: 0 <= i < n ==> buf[i] == PlusToSpace(old(buf[i]))
    ensures forall i :: n <= i < buf.Length ==> buf[i] == old(buf[i])
  {
    var t := 0;
    while buf[t] != NUL
      invariant t <= n
      invariant forall i :: 0 <= i < t ==> buf[i] == PlusToSpace(old(buf[i]))
      invariant forall i :: t <= i < buf.Length ==> buf[i] == old(buf[i])
      decreases n - t
    {
      if buf[t] == '+' {
        buf[t] := ' ';
      }
      t := t + 1;
    }
  }

  /**
   * One call of `strtok` with its cursor at `c`, over a buffer that holds the
   * text `P` from `c` on: it skips the delimiters, and when a token follows it
   * ends the token with a NUL over the delimiter behind it, if any, and moves
   * the cursor past it.
   */
  method Strtok(buf: array<char>, c: nat, ghost P: string) returns (found: bool, a: nat, e: nat, next: nat)
    requires c <= |P| < buf.Length && buf[|P|] == NUL
    requires forall i :: 0 <= i < |P| ==> P[i] != NUL
    requires forall i :: c <= i < |P| ==> buf[i] == P[i]
    modifies buf
    ensures !found ==> Tokens(P[c..]) == []
    ensures found ==> c <= a < e <= |P| && next == (if e < |P| then e + 1 else e)
    ensures found ==> Tokens(P[c..]) == [P[a..e]] + Tokens(P[next..])
    ensures found ==> buf[e] == NUL
    ensures forall i :: 0 <= i < buf.Length && (!found || i != e) ==> buf[i] == old(buf[i])
  {
    a := c;
    while buf[a] != NUL && IsDelim(buf[a])
      invariant c <= a <= |P|
      invariant forall j :: c <= j < a ==> IsDelim(P[j])
      decreases |P| - a
    {
      a := a + 1;
    }
    TokensSkip(P, c, a);
    if buf[a] == NUL {
      assert P[a..] == [];
      found, e, next := false, a, a;
      return;
    }
    e := a;
    while buf[e] != NUL && !IsDelim(buf[e])
      invariant a <= e <= |P|
      invariant forall j :: a <= j < e ==> !IsDelim(P[j])
      decreases |P| - e
    {
      e := e + 1;
    }
    found := true;
    TokensTake(P, a, e);
    if buf[e] != NUL {
      buf[e] := NUL;
      next := e + 1;
      TokensSkip(P, e, next);
    } else {
      next := e;
    }
  }

  /**
   * `strchr(key, '=')` on the decoded token `buf[a..a + len]` (NUL-terminated
   * by `urldecode`) and `*val++ = '\0'` (:187-191): the key is the C string
   * at `a`, cut at the '=', the value the C string just past it.
   */
  method SplitInPlace(buf: array<char>, a: nat, len: nat) returns (p: Parsed)
    requires a + len < buf.Length && buf[a + len] == NUL
    modifies buf
    ensures p == SplitField(CStr(old(buf[a..a + len])))
    ensures p.Malformed? ==> buf[..] == old(buf[..])
    ensures p.KeyValue? ==> a + |p.key| < a + len && buf[a + |p.key|] == NUL
    ensures forall j :: 0 <= j < buf.Length && (p.Malformed? || j != a + |p.key|) ==> buf[j] == old(buf[j])
  {
    var key := CStr(buf[a..a + len]);
    var i := Find(key, '=');
    if i == |key| {
      return Malformed;
    }
    ghost var d := buf[a..a + len];
    assert key[..i] == d[..i] == buf[a..a + i];
    buf[a + i] := NUL;
    assert forall j :: a <= j < a + i ==> buf[j] == d[j - a];
    assert buf[a..a + i] == key[..i];
    assert buf[a + i + 1..a + len] == d[i + 1..];
    CStrCut(d, i);
    p := KeyValue(buf[a..a + i], CStr(buf[a + i + 1..a + len]));
  }

  /**
   * `urldecode(t)` (:183-185) on the token `t` at `a`, ended by the NUL at
   * `e`: the decoded text, NUL-terminated, replaces the token's start.
   */
  method DecodeToken(buf: array<char>, a: nat, ghost t: string, ghost e: nat) returns (ok: bool, len: nat)
    requires e == a + |t| && e < buf.Length && buf[e] == NUL
    requires forall i :: 0 <= i < |t| ==> buf[a + i] == t[i] && t[i] != NUL
    modifies buf
    ensures a + len <= e && buf[a + len] == NUL
    ensures Run(START, t).out == buf[a..a + len]
    ensures Decode(t) == if ok then Some(buf[a..a + len]) else None
    ensures forall i :: 0 <= i < a || e <= i < buf.Length ==> buf[i] == old(buf[i])
    ensures forall i :: a + len < i < buf.Length ==> buf[i] == old(buf[i])
  {
    ghost var n := |t|;
    assert buf[a..][n] == NUL;
    assert CStr(buf[a..]) == t by {
      assert forall j :: 0 <= j < n ==> buf[a..][j] == t[j];
      FindIs(buf[a..], NUL, n);
    }
    ok, len := UrlDecode(buf, a);
  }

  /**
   * The body of the strtok loop (:183-193) for the token `t` at `a`, ended by the NUL at `e`:
   * decode it in place, split it at its '=' and hand key and value to
   * `sendfile_field`. Nothing at or beyond the token's NUL changes.
   */
  method Field(buf: array<char>, a: nat, ghost t: string, ghost e: nat, fs: FileSystem) returns (r: Outcome)
    requires e == a + |t| && e < buf.Length && buf[e] == NUL
    requires forall i :: 0 <= i < |t| ==> buf[a + i] == t[i] && t[i] != NUL
    modifies buf
    ensures r == FieldOutcome(t, fs)
    ensures forall i :: 0 <= i < a || e <= i < buf.Length ==> buf[i] == old(buf[i])
  {
    var ok, len := DecodeToken(buf, a, t, e);
    if !ok {
      return Abort;
    }
    ghost var decoded := buf[..];
    var p := SplitInPlace(buf, a, len);
    assert forall i :: 0 <= i < a || e <= i < buf.Length ==> buf[i] == decoded[i];
    assert ParseToken(t) == p;
    match p
    case Malformed => r := Abort;
    case KeyValue(k, v) =>
      match SendfileField(k, v, fs)
      case Some(text) => r := Reply(text);
      case None => r := Skip;
  }

  /**
   * One round of the strtok loop (:182-193) with the cursor at `c`: find the
   * next token `t` and run the loop body on it. Nothing past the new cursor
   * changes.
   */
  method Round(buf: array<char>, c: nat, ghost P: string, fs: FileSystem)
      returns (found: bool, r: Outcome, next: nat, ghost t: string)
    requires c <= |P| < buf.Length && buf[|P|] == NUL
    requires forall i :: 0 <= i < |P| ==> P[i] != NUL
    requires forall i :: c <= i < |P| ==> buf[i] == P[i]
    modifies buf
    ensures !found ==> Tokens(P[c..]) == []
    ensures found ==> c < next <= |P| && Tokens(P[c..]) == [t] + Tokens(P[next..])
    ensures found ==> r == FieldOutcome(t, fs)
    ensures buf[|P|] == NUL
    ensures found ==> forall i :: next <= i < |P| ==> buf[i] == old(buf[i])
  {
    var a, e;
    found, a, e, next := Strtok(buf, c, P);
    if !found {
      return found, Abort, next, [];
    }
    t := P[a..e];
    assert forall i :: 0 <= i < |t| ==> buf[a + i] == t[i] && t[i] != NUL;
    r := Field(buf, a, t, e, fs);
  }

  /**
   * The strtok loop (:182-194) over a buffer whose C string is `P`, once the
   * '+' pass is done: the first token with an answer answers, a token that
   * fails breaks the loop, and the end of the tokens ends it.
   */
  method TokenLoop(buf: array<char>, ghost P: string, fs: FileSystem) returns (ok: bool, out: string)
    requires |P| < buf.Length && buf[|P|] == NUL
    requires forall i :: 0 <= i < |P| ==> buf[i] == P[i] && P[i] != NUL
    modifies buf
    ensures First(Outcomes(Tokens(P), fs)) == if ok then Some(out) else None
  {
    ghost var n := |P|;
    ghost var ts := Tokens(P);
    ghost var os := Outcomes(ts, fs);
    ghost var k := 0;
    assert P[0..] == P;
    var c := 0;
    ok, out := false, [];
    while true
      invariant c <= n < buf.Length && buf[n] == NUL
      invariant forall i :: 0 <= i < n ==> P[i] != NUL
      invariant forall i :: c <= i < n ==> buf[i] == P[i]
      invariant k <= |ts| == |os| && Tokens(P[c..]) == ts[k..]
      invariant First(os) == First(os[k..])
      decreases n - c
    {
      var found, r, next, t := Round(buf, c, P, fs);
      if !found {
        assert os[k..] == [];
        return;
      }
      NextToken(ts, k, t, Tokens(P[next..]));
      OutcomeAt(ts, fs, k);
      FirstAt(os, k);
      match r
      case Abort =>
        return;
      case Reply(text) =>
        ok, out := true, text;
        return;
      case Skip =>
        c, k := next, k + 1;
    }
  }

  /**
   * `sendfile_query_string(ctx, buf)`: the '+' pass, then the strtok loop,
   * over the C string in `buf`. It answers as `QueryResponse` says.
   */
  method ProcessQuery(buf: array<char>, fs: FileSystem) returns (ok: bool, out: string)
    requires NUL in buf[..]
    modifies buf
    ensures QueryResponse(CStr(old(buf[..])), fs) == if ok then Some(out) else None
  {
    ghost var q := CStr(buf[..]);
    ghost var n := Terminator(buf[..], 0);
    assert buf[..][0..] == buf[..];
    PlusPass(buf, n);
    ghost var P := ReplacePlus(q);
    assert forall i :: 0 <= i < |P| ==> buf[i] == P[i] && P[i] != NUL;
    ok, out := TokenLoop(buf, P, fs);
  }

  /**
   * `strdup(qstr)` and `sendfile_query_string` on the copy: what the router
   * gets back for the query `q`.
   */
  method SendfileQueryString(q: string, fs: FileSystem) returns (ok: bool, out: string)
    ensures (if ok then Some(out) else None) == QueryResponse(CStr(q), fs)
  {
    var k := CStr(q);
    var dup := new char[|k| + 1]((i: int) requires 0 <= i <= |k| => if i < |k| then k[i] else NUL);
    assert dup[..] == k + [NUL] + [];
    CStrOfTerminated(k, []);
    ok, out := ProcessQuery(dup, fs);
  }
}
