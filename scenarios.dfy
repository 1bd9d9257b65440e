/**
 * Concrete inputs worked through the model: the decoder's corner cases, the
 * tokens strtok yields, GNU basename, and whole requests.
 */
module Scenarios {
  import opened Wrappers
  import opened CStrings
  import opened Decoder
  import opened Response
  import opened Query
  import opened Router

  /** `%20` from the start state is a space; `%2B` after it, with `val` still 0x20, is a '+'. */
  lemma DecodesEachEscape()
    ensures Run(START, "%20") == Finish(" ", Machine(0, 0x20))
    ensures Run(Machine(0, 0x20), "%2B") == Finish("+", Machine(0, 0x2B))
  {
    assert DigitValue('2') == 2 && DigitValue('0') == 0 && DigitValue('B') == 11;
    assert Run(Machine(2, 2), "0") == Finish(" ", Machine(0, 0x20));
    assert Run(Machine(1, 0), "20") == Finish(" ", Machine(0, 0x20));
    assert Run(Machine(2, 2), "B") == Finish("+", Machine(0, 0x2B));
    assert Run(Machine(1, 0x20), "2B") == Finish("+", Machine(0, 0x2B));
  }

  lemma DecodesEscapes()
    ensures Decode("a%20b c%2B") == Some("a b c+")
  {
    DecodesEachEscape();
    assert Run(START, "a") == Finish("a", START);
    assert Run(Machine(0, 0x20), "b c") == Finish("b c", Machine(0, 0x20));
    RunAppend(Machine(0, 0x20), "b c", "%2B");
    RunAppend(START, "%20", "b c" + "%2B");
    RunAppend(START, "a", "%20" + ("b c" + "%2B"));
    EscapesPieces();
  }

  /** The input and the output of `DecodesEscapes`, cut where the escapes are. */
  lemma EscapesPieces()
    ensures "a" + ("%20" + ("b c" + "%2B")) == "a%20b c%2B"
    ensures "a" + (" " + ("b c" + "+")) == "a b c+"
  {
  }

  /** `%2F` is a '/' whatever `val` held before it. */
  lemma SlashEscape(v: bv8)
    ensures Run(Machine(0, v), "%2F") == Finish("/", Machine(0, 0x2F))
  {
    assert DigitValue('2') == 2 && DigitValue('F') == 15;
    var w := (v << 4) | 2;
    assert (w << 4) | 15 == 0x2F;
    assert Run(Machine(2, w), "F") == Finish("/", Machine(0, 0x2F));
    assert Run(Machine(1, v), "2F") == Finish("/", Machine(0, 0x2F));
  }

  /** Text that urldecode copies as it is: no '%' and no '+'. */
  predicate Verbatim(s: string)
  {
    forall i :: 0 <= i < |s| ==> s[i] != '%' && s[i] != '+'
  }

  /** Two `%2F` escapes between verbatim pieces decode to slashes. */
  lemma DecodesSlashes(key: string, a: string, b: string)
    requires Verbatim(key) && Verbatim(a) && Verbatim(b)
    ensures Decode(key + "%2F" + a + "%2F" + b) == Some(key + "/" + a + "/" + b)
  {
    var m := Machine(0, 0x2F);
    RunPlain(START, key);
    SlashEscape(0);
    RunAppend(START, key, "%2F");
    RunPlain(m, a);
    RunAppend(START, key + "%2F", a);
    SlashEscape(0x2F);
    RunAppend(START, key + "%2F" + a, "%2F");
    RunPlain(m, b);
    RunAppend(START, key + "%2F" + a + "%2F", b);
  }

  /** A character strtok keeps inside a token and the '+' pass leaves alone. */
  predicate InToken(s: string)
  {
    forall i :: 0 <= i < |s| ==> s[i] != '+' && !IsDelim(s[i]) && s[i] != NUL
  }

  lemma InTokenAppend(s: string, t: string)
    requires InToken(s) && InToken(t)
    ensures InToken(s + t)
  {
    assert forall i :: 0 <= i < |s + t| ==> (s + t)[i] == if i < |s| then s[i] else t[i - |s|];
  }

  /** A nonempty query without '+', separators or NUL is one token. */
  lemma OneToken(q: string)
    requires q != [] && InToken(q)
    ensures Tokens(ReplacePlus(q)) == [q]
  {
    ReplacePlusSpec(q);
    assert ReplacePlus(q) == q;
    TokensOfJoin([q]);
  }

  /** Text with only characters that pass through strtok and urldecode unchanged. */
  predicate PlainText(s: string)
  {
    forall i :: 0 <= i < |s| ==> Plain(s[i])
  }

  lemma PlainAppend(s: string, t: string)
    requires PlainText(s) && PlainText(t)
    ensures PlainText(s + t)
  {
    assert forall i :: 0 <= i < |s + t| ==> (s + t)[i] == if i < |s| then s[i] else t[i - |s|];
  }

  /** A plain field `k=w` is one token, decodes to itself and splits at its first '='. */
  lemma PlainField(k: string, w: string)
    requires '=' !in k && PlainText(k) && PlainText(w)
    ensures Tokens(ReplacePlus(k + "=" + w)) == [k + "=" + w]
    ensures ParseToken(k + "=" + w) == KeyValue(k, w)
  {
    SplitsAtKey(k, w);
    PlainAppend(k, "=");
    PlainAppend(k + "=", w);
    PlainQuery(k + "=" + w);
  }

  /** `k=w` splits into `k` and `w` when `k` holds no '='. */
  lemma SplitsAtKey(k: string, w: string)
    requires '=' !in k
    ensures SplitField(k + "=" + w) == KeyValue(k, w)
  {
    FindPrefix(k, "=" + w, '=');
    assert k + "=" + w == k + ("=" + w);
  }

  /** A field `k=w` whose key is not `filename` is skipped. */
  lemma SkippedField(k: string, w: string, fs: FileSystem)
    requires k != "filename" && '=' !in k && PlainText(k) && PlainText(w)
    ensures FieldOutcome(k + "=" + w, fs) == Skip
  {
    PlainField(k, w);
  }

  /** `filename=%2F<a>%2F<b>` decodes to a request for the path `/<a>/<b>`. */
  lemma DecodedFilename(a: string, b: string)
    requires PlainText(a) && PlainText(b)
    ensures ServedAs("filename=" + "%2F" + a + "%2F" + b, "/" + a + "/" + b)
  {
    DecodesSlashes("filename=", a, b);
    var path := "/" + a + "/" + b;
    assert "filename=" + "/" + a + "/" + b == "filename=" + path;
    assert InToken("filename=" + path) by {
      InTokenAppend("/", a);
      InTokenAppend("/" + a, "/");
      InTokenAppend("/" + a + "/", b);
      InTokenAppend("filename=", path);
    }
  }

  /** `filename=%2F<a>%2F<b>` is one token. */
  lemma SlashedToken(a: string, b: string)
    requires PlainText(a) && PlainText(b)
    ensures Tokens(ReplacePlus("filename=" + "%2F" + a + "%2F" + b)) == ["filename=" + "%2F" + a + "%2F" + b]
  {
    assert InToken(a) && InToken(b);
    InTokenAppend("filename=", "%2F");
    InTokenAppend("filename=" + "%2F", a);
    InTokenAppend("filename=" + "%2F" + a, "%2F");
    InTokenAppend("filename=" + "%2F" + a + "%2F", b);
    OneToken("filename=" + "%2F" + a + "%2F" + b);
  }

  /** A query of two tokens, the first skipped and the second served, is answered for the second's path. */
  lemma SkipThenServe(x: string, y: string, path: string, fs: FileSystem)
    requires Tokens(ReplacePlus(x)) == [x] && FieldOutcome(x, fs) == Skip
    requires Tokens(ReplacePlus(y)) == [y] && ServedAs(y, path)
    ensures QueryResponse(x + "&" + y, fs) == Some(SendfileFilename(path, fs))
  {
    FieldOutcomeCases(y, fs);
    OutcomesOfCons(x, [], fs);
    OutcomesOfCons(y, [], fs);
    QueryConcat(x, y, fs);
  }

  /**
   * A field `k=w` that is not `filename`, then `filename=%2F<a>%2F<b>`: the
   * first field is skipped and the decoded path `/<a>/<b>` is served.
   */
  lemma ServesDecodedFilename(k: string, w: string, a: string, b: string, fs: FileSystem)
    requires k != "filename" && '=' !in k
    requires PlainText(k) && PlainText(w) && PlainText(a) && PlainText(b)
    ensures QueryResponse(k + "=" + w + "&" + ("filename=" + "%2F" + a + "%2F" + b), fs) ==
              Some(SendfileFilename("/" + a + "/" + b, fs))
  {
    SkippedField(k, w, fs);
    PlainField(k, w);
    SlashedToken(a, b);
    DecodedFilename(a, b);
    SkipThenServe(k + "=" + w, "filename=" + "%2F" + a + "%2F" + b, "/" + a + "/" + b, fs);
  }

  /** The query `x=1&filename=%2Fetc%2Fpasswd` and the path `/etc/passwd`, cut into the pieces the lemmas above take. */
  lemma PasswdQueryPieces()
    ensures "x" + "=" + "1" + "&" + ("filename=" + "%2F" + "etc" + "%2F" + "passwd") == "x=1&filename=%2Fetc%2Fpasswd"
    ensures "/" + "etc" + "/" + "passwd" == "/etc/passwd"
  {
  }

  /** A query whose first field `x=1` is skipped and whose second asks for `/etc/passwd` in escaped form is answered for `/etc/passwd`. */
  lemma PasswdQuery(fs: FileSystem)
    ensures QueryResponse("x=1&filename=%2Fetc%2Fpasswd", fs) == Some(SendfileFilename("/etc/passwd", fs))
  {
    PasswdQueryPieces();
    ServesDecodedFilename("x", "1", "etc", "passwd", fs);
  }

  lemma UnfinishedEscapesFail()
    ensures Decode("a%") == None
    ensures Decode("a%2") == None
    ensures Decode("a%zz") == None
  {
  }

  lemma NonHexIsDropped()
    ensures Decode("%g41") == Some("A")
  {
    assert DigitValue('4') == 4 && DigitValue('1') == 1;
    assert Run(Machine(2, 4), "1") == Finish("A", Machine(0, 0x41));
    assert Run(Machine(1, 0), "41") == Finish("A", Machine(0, 0x41));
    assert Run(Machine(1, 0), "g41") == Finish("A", Machine(0, 0x41));
  }

  lemma LowercaseHexIsMisread()
    ensures Decode("%2f") == Some("f")
    ensures Decode("%2F") == Some("/")
  {
    assert DigitValue('2') == 2 && DigitValue('f') == 0x46 && DigitValue('F') == 15;
    assert Run(Machine(2, 2), "f") == Finish("f", Machine(0, 0x66));
    assert Run(Machine(1, 0), "2f") == Finish("f", Machine(0, 0x66));
    assert Run(Machine(2, 2), "F") == Finish("/", Machine(0, 0x2F));
    assert Run(Machine(1, 0), "2F") == Finish("/", Machine(0, 0x2F));
  }

  /** A ';' separates fields as '&' does. */
  lemma TokensOfQuery(x: string, y: string)
    requires IsToken(x) && IsToken(y)
    ensures Tokens(x + "&" + y) == [x, y]
    ensures Tokens(x + ";" + y) == [x, y]
  {
    TokensOfJoin([y]);
    TokenThenDelim(x, '&', y);
    TokenThenDelim(x, ';', y);
  }

  /** A delimiter in front yields nothing. */
  lemma DelimThen(d: char, rest: string)
    requires IsDelim(d)
    ensures Tokens([d] + rest) == Tokens(rest)
  {
    assert ([d] + rest)[1..] == rest;
  }

  /** Leading, repeated and trailing delimiters yield no empty tokens. */
  lemma NoEmptyTokens(x: string, y: string)
    requires IsToken(x) && IsToken(y)
    ensures Tokens(";;" + x + "&&" + y + ";") == [x, y]
  {
    var t4 := y + ";";
    var t3 := "&" + t4;
    var t2 := x + "&" + t3;
    var t1 := ";" + t2;
    assert ";;" + x + "&&" + y + ";" == ";" + t1;
    TokenThenDelim(y, ';', "");
    assert t4 == y + [';'] + "";
    DelimThen('&', t4);
    TokenThenDelim(x, '&', t3);
    DelimThen(';', t2);
    DelimThen(';', t1);
  }

  lemma GnuBasename()
    ensures Basename("/srv/a.bin") == "a.bin"
    ensures Basename("/srv/files/") == ""
  {
    var p := "/srv/a.bin";
    assert p[4] == '/' && forall j :: 5 <= j < |p| ==> p[j] != '/';
    assert BaseStart(p) == 5;
    assert p[5..] == "a.bin";
  }
}
