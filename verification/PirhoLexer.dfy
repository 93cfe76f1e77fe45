/**
 The lexer of np_lex.c: a position in the source and one character put back.
 */
module PirhoLexer {
  import opened Decimals
  import opened PirhoText

  const LEX_EOF := -2

  class Lexer {
    const source: string
    var idx: nat
    var ccache: char

    constructor (source: string)
      ensures this.source == source && Valid() && Rest() == source
    {
      this.source := source;
      idx, ccache := 0, '\0';
    }

    ghost predicate Valid()
      reads this
    {
      idx <= |source|
    }

    /** The text still to come. */
    ghost function Rest(): string
      requires Valid()
      reads this
    {
      if ccache != '\0' then [ccache] + source[idx..] else source[idx..]
    }

    /** lex_pop: the next character, or NUL at the end. */
    method Pop() returns (c: char)
      requires Valid()
      modifies this
      ensures Valid() && ccache == '\0'
      ensures if old(Rest()) == [] then c == '\0' && Rest() == [] else c == old(Rest())[0] && Rest() == old(Rest())[1..]
    {
      if ccache != '\0' {
        c := ccache;
        ccache := '\0';
        return;
      }
      if idx >= |source| {
        return '\0';
      }
      c := source[idx];
      idx := idx + 1;
    }

    /** An outcome of a scan, and what is left. */
    ghost predicate Leaves(l: Lexed, err: int, t: Token)
      requires Valid()
      reads this
    {
      && Rest() == l.rest
      && match l
         case Tok(u, _) => err == 0 && t == u
         case Err(_) => err == -1
         case Eof(_) => err == LEX_EOF
    }

    /** lex_matchstr, with the first character c already taken. */
    method MatchStr(c0: char) returns (err: int, t: Token)
      requires Valid() && c0 != '\0' && ccache == '\0'
      modifies this
      ensures Valid() && Leaves(WordScan([], [c0] + old(Rest())), err, t)
    {
      var id := "";
      var c := c0;
      t := NoToken;
      while true
        invariant Valid() && c != '\0' && ccache == '\0'
        invariant WordScan(id, [c] + Rest()) == WordScan([], [c0] + old(Rest()))
        decreases |Rest()|
      {
        ghost var r := Rest();
        WordStep(id, c, r);
        if |id| >= MAX_ID_LEN {
          return -1, t;
        }
        if !IsAlpha(c) && !IsNum(c) {
          ccache := c;
          break;
        }
        id := id + [c];
        c := Pop();
        if c == '\0' {
          break;
        }
        assert [c] + Rest() == r;
      }
      t := Keyword(id);
      err := 0;
    }

    /** One character of a word, as the loop sees it. */
    static lemma WordStep(w: string, c: char, r: string)
      ensures WordScan(w, [c] + r) ==
              if |w| >= MAX_ID_LEN then Err(r)
              else if !IsAlpha(c) && !IsNum(c) then Tok(Keyword(w), [c] + r)
              else if r == [] then Tok(Keyword(w + [c]), [])
              else if r[0] == '\0' then Tok(Keyword(w + [c]), r[1..])
              else WordScan(w + [c], r)
    {
      var s := [c] + r;
      assert s[0] == c && s[1..] == r && (r != [] ==> s[1] == r[0] && s[2..] == r[1..]);
    }

    /** lex_nomnum, with the first digit c already taken. */
    method NomNum(c0: char) returns (t: Token)
      requires Valid() && IsNum(c0) && ccache == '\0'
      modifies this
      ensures Valid() && Leaves(NumScan(0, [c0] + old(Rest())), 0, t)
    {
      var num: nat := 0;
      var c := c0;
      while IsNum(c)
        invariant Valid() && ccache == '\0' && NumScan(num, [c] + Rest()) == NumScan(0, [c0] + old(Rest()))
        decreases |Rest()| + (if IsNum(c) then 1 else 0)
      {
        ghost var n, d, r := num, c, Rest();
        num := (num * 10 + DigitOf(c)) % U64_SPAN;
        NumStep(n, d, r, num);
        c := Pop();
        assert if r == [] then [c] + Rest() == ['\0'] else [c] + Rest() == r;
      }
      assert ([c] + Rest())[1..] == Rest();
      t := Number(num);
    }

    /** One digit, as the loop sees it; the end of the text reads as NUL. */
    static lemma NumStep(n: nat, c: char, r: string, m: nat)
      requires IsNum(c) && m == (n * 10 + DigitOf(c)) % U64_SPAN
      ensures NumScan(n, [c] + r) == NumScan(m, r) && NumScan(m, ['\0']) == NumScan(m, [])
    {
      var s := [c] + r;
      assert s[0] == c && s[1..] == r;
      NumEnd(m);
    }

    /** lex_nomstr, behind the opening quote. */
    method NomStr() returns (err: int, t: Token)
      requires Valid()
      modifies this
      ensures Valid() && Leaves(StrScan([], old(Rest())), err, t)
    {
      var strbuf := "";
      t := NoToken;
      while true
        invariant Valid() && StrScan(strbuf, Rest()) == StrScan([], old(Rest()))
        decreases |Rest()|
      {
        var c := Pop();
        if c == '\0' {
          return -1, t;
        }
        if |strbuf| >= MAX_STRLEN - 1 {
          return -1, t;
        }
        if c == '"' {
          return 0, Str(strbuf);
        }
        strbuf := strbuf + [c];
      }
    }

    /** The loop over white space: the first other character, or NUL. */
    method SkipSpace() returns (c: char)
      requires Valid()
      modifies this
      ensures Valid() && ccache == '\0'
      ensures var r := Skip(old(Rest()));
              if r == [] then c == '\0' && Rest() == [] else c == r[0] && Rest() == r[1..]
    {
      while true
        invariant Valid() && Skip(Rest()) == Skip(old(Rest()))
        decreases |Rest()|
      {
        c := Pop();
        if c == '\0' || !IsSpace(c) {
          return;
        }
      }
    }

    /** The token that starts with c. */
    method Classify(c: char) returns (err: int, t: Token)
      requires Valid() && ccache == '\0'
      modifies this
      ensures Valid() && Leaves(LexFrom(c, old(Rest())), err, t)
    {
      t := NoToken;
      if c == '\0' {
        return LEX_EOF, t;
      }
      if c == '"' {
        err, t := NomStr();
      } else if IsPunct(c) {
        err, t := 0, Punct(c);
      } else if IsNum(c) {
        t := NomNum(c);
        err := 0;
      } else if !IsAlpha(c) {
        err := -1;
      } else {
        err, t := MatchStr(c);
      }
    }

    /** lex_nom: the next token, or the end, or an error. */
    method Nom() returns (err: int, t: Token)
      requires Valid()
      modifies this
      ensures Valid() && Leaves(Lex(old(Rest())), err, t)
    {
      var c := SkipSpace();
      err, t := Classify(c);
    }
  }

  /** The end of the text ends a number as a NUL would. */
  lemma NumEnd(n: nat)
    ensures NumScan(n, ['\0']) == NumScan(n, [])
  {
    assert ['\0'][1..] == [];
  }
}
