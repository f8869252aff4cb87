/** Strings and bytes: suffix tests, SQL quoting, POSIX path helpers and string order. */
module Text {
  import opened Wrappers
  import opened Seqs

  newtype byte = x: int | 0 <= x < 256

  /** The contents of a file or a binary (BLOB) column value. */
  type Bytes = seq<byte>

  predicate StartsWith(s: string, prefix: string)
  {
    |prefix| <= |s| && s[..|prefix|] == prefix
  }

  /** Python's `str.endswith`. */
  predicate EndsWith(s: string, suffix: string)
  {
    |suffix| <= |s| && s[|s| - |suffix|..] == suffix
  }

  lemma EndsWithAppend(p: string, suffix: string)
    ensures EndsWith(p + suffix, suffix)
  {
    assert (p + suffix)[|p + suffix| - |suffix|..] == suffix;
  }

  // ---------------------------------------------------------------------------
  // TRIM

  /**
   * The characters one-argument SQL `TRIM` removes: the Unicode space
   * separators (general category Zs), among them the space, the no-break
   * space U+00A0 and the ideographic space U+3000.
   */
  predicate IsTrimSpace(c: char)
  {
    var n := c as int;
    n == 0x20 || n == 0xA0 || n == 0x1680 || 0x2000 <= n <= 0x200A || n == 0x202F || n == 0x205F || n == 0x3000
  }

  /** Every character is one that `TRIM` removes. */
  predicate IsBlank(s: string)
  {
    forall i :: 0 <= i < |s| ==> IsTrimSpace(s[i])
  }

  /** Drops leading spaces: what is left is a suffix whose dropped part is blank. */
  function TrimLeft(s: string): (r: string)
    ensures |r| <= |s| && r == s[|s| - |r|..]
    ensures IsBlank(s[..|s| - |r|])
    ensures r != [] ==> !IsTrimSpace(r[0])
  {
    if s != [] && IsTrimSpace(s[0]) then
      var r := TrimLeft(s[1..]);
      assert s[..|s| - |r|] == [s[0]] + s[1..][..|s[1..]| - |r|];
      r
    else s
  }

  /** Drops trailing spaces: what is left is a prefix whose dropped part is blank. */
  function TrimRight(s: string): (r: string)
    ensures |r| <= |s| && r == s[..|r|]
    ensures IsBlank(s[|r|..])
    ensures r != [] ==> !IsTrimSpace(r[|r| - 1])
  {
    if s != [] && IsTrimSpace(s[|s| - 1]) then
      var r := TrimRight(s[..|s| - 1]);
      assert s[|r|..] == s[..|s| - 1][|r|..] + [s[|s| - 1]];
      r
    else s
  }

  /** `r` is what is left of `s` once a blank prefix and a blank suffix are cut off. */
  predicate BetweenBlanks(s: string, r: string)
  {
    exists i, j :: 0 <= i <= j <= |s| && r == s[i..j] && IsBlank(s[..i]) && IsBlank(s[j..])
  }

  /**
   * SQL `TRIM(s)`: the part of `s` left between a blank prefix and a blank
   * suffix, starting and ending with a character that is not a space separator.
   */
  function Trim(s: string): (r: string)
    ensures |r| <= |s|
    ensures BetweenBlanks(s, r)
    ensures r != [] ==> !IsTrimSpace(r[0]) && !IsTrimSpace(r[|r| - 1])
  {
    var u := TrimLeft(s);
    var r := TrimRight(u);
    assert r != [] ==> r[0] == u[0];
    CutBothEnds(s, u, r);
    r
  }

  /** Cutting a blank prefix off `s` and then a blank suffix off the rest leaves `r` between blanks. */
  lemma CutBothEnds(s: string, u: string, r: string)
    requires |u| <= |s| && u == s[|s| - |u|..] && IsBlank(s[..|s| - |u|])
    requires |r| <= |u| && r == u[..|r|] && IsBlank(u[|r|..])
    ensures BetweenBlanks(s, r)
  {
    var i := |s| - |u|;
    var j := i + |r|;
    assert r == s[i..j];
    assert s[j..] == u[|r|..];
  }

  /** `TRIM(s) <> ''` holds exactly when `s` has a character that is not a space separator. */
  lemma TrimEmptyIffBlank(s: string)
    ensures Trim(s) == "" <==> IsBlank(s)
  {
    var u := TrimLeft(s);
    var k := |s| - |u|;
    if Trim(s) == "" {
      assert IsBlank(u);
      assert u == [];
      assert s[..k] == s;
    } else {
      assert u != [];
      assert u[0] == s[k];
    }
  }

  /** Text made only of no-break and ideographic spaces trims to the empty string. */
  lemma TrimOtherSpaces()
    ensures Trim([0xA0 as char, 0x3000 as char, ' ']) == ""
  {
    TrimEmptyIffBlank([0xA0 as char, 0x3000 as char, ' ']);
  }

  // ---------------------------------------------------------------------------
  // Quoting for SQL string literals

  /** `s.replace("'", "''")`: every quote doubled. */
  function Escape(s: string): (r: string)
    ensures |r| >= |s|
  {
    if s == [] then [] else (if s[0] == '\'' then "''" else [s[0]]) + Escape(s[1..])
  }

  /** Text without quotes is its own escape. */
  lemma {:induction false} EscapeNoQuote(s: string)
    requires '\'' !in s
    ensures Escape(s) == s
  {
    if s != [] {
      assert s[0] in s;
      assert s == [s[0]] + s[1..];
      EscapeNoQuote(s[1..]);
    }
  }

  /** `s.replace("''", "'")`: each doubled quote, scanned left to right, back to a single quote. */
  function Unescape(s: string): string
  {
    if |s| >= 2 && s[0] == '\'' && s[1] == '\'' then "'" + Unescape(s[2..])
    else if s == [] then []
    else [s[0]] + Unescape(s[1..])
  }

  /** Reversing the substitution recovers the original text. */
  lemma {:induction false} UnescapeEscape(s: string)
    ensures Unescape(Escape(s)) == s
  {
    if s != [] {
      UnescapeEscape(s[1..]);
      var e := Escape(s);
      if s[0] == '\'' {
        assert e == "''" + Escape(s[1..]);
        assert e[2..] == Escape(s[1..]);
      } else {
        assert e == [s[0]] + Escape(s[1..]);
        assert e[1..] == Escape(s[1..]);
      }
    }
  }

  lemma {:induction false} EscapeAppend(a: string, b: string)
    ensures Escape(a + b) == Escape(a) + Escape(b)
  {
    if a == [] {
      assert a + b == b;
    } else {
      assert (a + b)[0] == a[0];
      assert (a + b)[1..] == a[1..] + b;
      EscapeAppend(a[1..], b);
    }
  }

  lemma EscapeFixesQuoteFree(s: string)
    ensures '\'' !in s ==> Escape(s) == s
  {
    if '\'' !in s {
      EscapeNoQuote(s);
    }
  }

  /** Escaping keeps a text non-empty, and keeps whether its last character is `/`. */
  lemma EscapeLastChar(d: string)
    requires d != []
    ensures Escape(d) != []
    ensures Escape(d)[|Escape(d)| - 1] == '/' <==> d[|d| - 1] == '/'
  {
    var d', c := d[..|d| - 1], d[|d| - 1];
    assert d == d' + [c];
    EscapeAppend(d', [c]);
    assert Escape([c]) == if c == '\'' then "''" else [c];
  }

  /** The text `'…'` that an f-string `'{s}'` produces. */
  function Quoted(s: string): string
  {
    "'" + s + "'"
  }

  /**
   * How the query engine reads a string literal once its opening quote is
   * consumed: `''` stands for one quote and a lone `'` closes the literal.
   * Yields the literal's value and the text after it, or None when unterminated.
   */
  function ReadQuoted(s: string): Option<(string, string)>
  {
    if s == [] then None
    else if s[0] == '\'' then
      if |s| >= 2 && s[1] == '\'' then
        match ReadQuoted(s[2..])
        case None => None
        case Some(p) => Some(("'" + p.0, p.1))
      else Some(("", s[1..]))
    else
      match ReadQuoted(s[1..])
      case None => None
      case Some(p) => Some(([s[0]] + p.0, p.1))
  }

  /** The value of `lit` when the whole of `lit` is one string literal; None otherwise. */
  function LiteralValue(lit: string): Option<string>
  {
    if lit != [] && lit[0] == '\'' then
      match ReadQuoted(lit[1..])
      case Some(p) => if p.1 == "" then Some(p.0) else None
      case None => None
    else None
  }

  lemma ReadQuotedPair(t: string)
    ensures ReadQuoted("''" + t) == match ReadQuoted(t) case None => None case Some(p) => Some(("'" + p.0, p.1))
  {
    assert ("''" + t)[2..] == t;
  }

  lemma ReadQuotedPlain(c: char, t: string)
    requires c != '\''
    ensures ReadQuoted([c] + t) == match ReadQuoted(t) case None => None case Some(p) => Some(([c] + p.0, p.1))
  {
    assert ([c] + t)[1..] == t;
  }

  /** An escaped value followed by a closing quote reads back as the value. */
  lemma {:induction false} ReadQuotedEscaped(v: string, rest: string)
    requires rest == [] || rest[0] != '\''
    ensures ReadQuoted(Escape(v) + "'" + rest) == Some((v, rest))
  {
    if v == [] {
      assert Escape(v) + "'" + rest == "'" + rest;
      assert ("'" + rest)[1..] == rest;
    } else {
      ReadQuotedEscaped(v[1..], rest);
      var tail := Escape(v[1..]) + "'" + rest;
      if v[0] == '\'' {
        assert Escape(v) == "''" + Escape(v[1..]);
        ConcatAssoc3("''", Escape(v[1..]), "'", rest);
        ReadQuotedPair(tail);
        assert v == "'" + v[1..];
      } else {
        assert Escape(v) == [v[0]] + Escape(v[1..]);
        ConcatAssoc3([v[0]], Escape(v[1..]), "'", rest);
        ReadQuotedPlain(v[0], tail);
        assert v == [v[0]] + v[1..];
      }
    }
  }

  lemma ConcatAssoc3(a: string, b: string, c: string, d: string)
    ensures (a + b) + c + d == a + (b + c + d)
  {
  }

  /** Quoting an escaped value gives a literal whose value is that value. */
  lemma LiteralOfEscaped(v: string)
    ensures LiteralValue(Quoted(Escape(v))) == Some(v)
  {
    ReadQuotedEscaped(v, "");
    assert Quoted(Escape(v))[1..] == Escape(v) + "'" + "";
  }

  // ---------------------------------------------------------------------------
  // POSIX paths

  /** `os.path.basename`: the part after the last `/` (the suffix with no `/`, as long as possible). */
  function BaseName(p: string): (r: string)
    ensures EndsWith(p, r)
    ensures '/' !in r
    ensures |r| < |p| ==> p[|p| - |r| - 1] == '/'
  {
    if p == [] then []
    else if p[|p| - 1] == '/' then []
    else
      var r := BaseName(p[..|p| - 1]) + [p[|p| - 1]];
      assert p[|p| - |r|..] == p[..|p| - 1][|p| - |r|..] + [p[|p| - 1]];
      r
  }

  /** A character other than `/` at the end of a path ends its base name too. */
  lemma BaseNameSnoc(p: string, c: char)
    requires c != '/'
    ensures BaseName(p + [c]) == BaseName(p) + [c]
  {
    var q := p + [c];
    assert q[..|q| - 1] == p;
    assert q[|q| - 1] == c;
  }

  lemma AppendFirst(a: string, b: string)
    requires b != []
    ensures a + b == (a + [b[0]]) + b[1..]
  {
    assert b == [b[0]] + b[1..];
  }

  lemma NotInTail(x: char, b: string)
    requires b != [] && x !in b
    ensures x != b[0] && x !in b[1..]
  {
    assert forall y :: y in b[1..] ==> y in b;
  }

  lemma {:induction false} BaseNameAppend(a: string, b: string)
    requires '/' !in b
    ensures BaseName(a + b) == BaseName(a) + b
    decreases |b|
  {
    if b == [] {
      assert a + b == a;
    } else {
      NotInTail('/', b);
      AppendFirst(a, b);
      AppendFirst(BaseName(a), b);
      BaseNameAppend(a + [b[0]], b[1..]);
      BaseNameSnoc(a, b[0]);
    }
  }

  /** Three `/`-free pieces after a path stay after its base name. */
  lemma BaseNameAppend3(p: string, a: string, b: string, c: string)
    requires '/' !in a + b + c
    ensures BaseName(p + a + b + c) == BaseName(p) + a + b + c
  {
    ConcatAssoc3(p, a, b, c);
    ConcatAssoc3(BaseName(p), a, b, c);
    BaseNameAppend(p, a + b + c);
  }

  /** `os.path.join(dir, name)` for a relative `name`. */
  function Join(dir: string, name: string): (r: string)
    ensures EndsWith(r, name)
    ensures dir == [] || StartsWith(name, "/") ==> r == name
  {
    EndsWithAppend(dir, name);
    EndsWithAppend(dir + "/", name);
    if StartsWith(name, "/") then name
    else if dir == [] || EndsWith(dir, "/") then dir + name
    else dir + "/" + name
  }

  /** A non-empty text ends with `/` exactly when its last character is `/`. */
  lemma EndsWithSlash(s: string)
    requires s != []
    ensures EndsWith(s, "/") <==> s[|s| - 1] == '/'
  {
    assert s[|s| - 1..] == [s[|s| - 1]];
  }

  /** Escaping `d + "/" + name` keeps the separator and a quote-free name in place. */
  lemma EscapeSlashJoin(dir: string, name: string)
    requires '\'' !in name
    ensures Escape(dir + "/" + name) == Escape(dir) + "/" + name
  {
    EscapeNoQuote(name);
    EscapeNoQuote("/");
    EscapeAppend(dir, "/");
    EscapeAppend(dir + "/", name);
  }

  /** Joining a relative name onto `a'b` gives `a'` followed by text that does not start with a quote. */
  lemma JoinAfterQuote(a: string, b: string, name: string) returns (c: string)
    requires !StartsWith(name, "/")
    requires b == [] || b[0] != '\''
    ensures Join(a + "'" + b, name) == a + "'" + c
    ensures c != [] && c[0] != '\''
  {
    var d := a + "'" + b;
    EndsWithSlash(d);
    if EndsWith(d, "/") {
      assert b != [];
      c := b + name;
      assert d + name == a + "'" + c;
      assert c[0] == b[0];
    } else {
      c := b + "/" + name;
      assert d + "/" + name == a + "'" + c;
      assert c[0] == if b == [] then '/' else b[0];
    }
  }

  /** Joining onto an escaped directory gives the escaped join, for a name with no quote and no leading `/`. */
  lemma JoinEscape(dir: string, name: string)
    requires '\'' !in name && !StartsWith(name, "/")
    ensures Join(Escape(dir), name) == Escape(Join(dir, name))
  {
    EscapeNoQuote(name);
    if dir != [] {
      EscapeLastChar(dir);
      EndsWithSlash(dir);
      EndsWithSlash(Escape(dir));
      if EndsWith(dir, "/") {
        EscapeAppend(dir, name);
      } else {
        EscapeSlashJoin(dir, name);
      }
    } else {
      assert Escape(dir) == [];
      assert [] + name == name;
    }
  }

  lemma BaseNameJoin(dir: string, name: string)
    requires '/' !in name
    ensures BaseName(Join(dir, name)) == name
  {
    if name != [] {
      assert name[0] in name;
      assert name[..1] != "/";
    }
    assert !StartsWith(name, "/");
    if dir == [] {
      assert Join(dir, name) == dir + name;
      BaseNameAppend(dir, name);
    } else if EndsWith(dir, "/") {
      assert Join(dir, name) == dir + name;
      assert dir[|dir| - 1] == '/';
      BaseNameAppend(dir, name);
    } else {
      var d := dir + "/";
      assert Join(dir, name) == d + name;
      assert d[|d| - 1] == '/';
      BaseNameAppend(d, name);
    }
  }

  /** Escaping commutes with taking the base name (a quote is not a `/`). */
  lemma {:induction false} BaseNameEscape(p: string)
    ensures BaseName(Escape(p)) == Escape(BaseName(p))
    decreases |p|
  {
    if p != [] {
      var p', c := p[..|p| - 1], p[|p| - 1];
      assert p == p' + [c];
      EscapeAppend(p', [c]);
      assert Escape([c]) == if c == '\'' then "''" else [c];
      if c == '/' {
        assert Escape(p) == Escape(p') + "/";
        assert Escape(p)[|Escape(p)| - 1] == '/';
      } else {
        BaseNameAppend(Escape(p'), Escape([c]));
        BaseNameEscape(p');
        assert BaseName(p) == BaseName(p') + [c] by {
          assert p[..|p| - 1] == p';
        }
        EscapeAppend(BaseName(p'), [c]);
      }
    }
  }

  // ---------------------------------------------------------------------------
  // Joining and ordering

  /** Python's `sep.join(parts)`. */
  function JoinWith(sep: string, parts: seq<string>): string
  {
    if parts == [] then ""
    else if |parts| == 1 then parts[0]
    else parts[0] + sep + JoinWith(sep, parts[1..])
  }

  /** Python's `a <= b` on strings: lexicographic order of code points. */
  predicate StrLe(a: string, b: string)
    ensures a <= b ==> StrLe(a, b)
  {
    a == [] || (b != [] && (a[0] < b[0] || (a[0] == b[0] && StrLe(a[1..], b[1..]))))
  }

  lemma {:induction false} StrLeTotal(a: string, b: string)
    ensures StrLe(a, b) || StrLe(b, a)
  {
    if a != [] && b != [] && a[0] == b[0] {
      StrLeTotal(a[1..], b[1..]);
    }
  }

  lemma {:induction false} StrLeTransitive(a: string, b: string, c: string)
    requires StrLe(a, b) && StrLe(b, c)
    ensures StrLe(a, c)
  {
    if a != [] && a[0] == b[0] && b[0] == c[0] {
      StrLeTransitive(a[1..], b[1..], c[1..]);
    }
  }

  lemma {:induction false} StrLeAntisymmetric(a: string, b: string)
    requires StrLe(a, b) && StrLe(b, a)
    ensures a == b
  {
    if a != [] {
      StrLeAntisymmetric(a[1..], b[1..]);
      assert a == [a[0]] + a[1..] && b == [b[0]] + b[1..];
    }
  }

  lemma StrLeTotalPreorder()
    ensures TotalPreorder(StrLe)
  {
    forall a, b ensures Comparable(StrLe, a, b) { StrLeTotal(a, b); }
    forall a, b, c ensures Chains(StrLe, a, b, c) {
      if StrLe(a, b) && StrLe(b, c) { StrLeTransitive(a, b, c); }
    }
  }
}
