/** Title normalisation shared by the catalog load and the search query
    (api.py, clean_text): lower-case, then delete every '-', then every ' '. */
module TextClean {

  /** An ASCII capital letter, the only characters lower-casing changes here. */
  predicate IsUpper(c: char) {
    'A' <= c <= 'Z'
  }

  /** Lower-casing of one character. */
  function LowerChar(c: char): (d: char)
    ensures !IsUpper(d)
    ensures IsUpper(c) ==> d as int == c as int + 32
    ensures !IsUpper(c) ==> d == c
  {
    if IsUpper(c) then (c as int + 32) as char else c
  }

  /** `s.lower()`. */
  function Lower(s: string): string {
    seq(|s|, i requires 0 <= i < |s| => LowerChar(s[i]))
  }

  /** `s.replace(c, '')`: every occurrence of `c` deleted, the other
      characters kept in order. */
  function Remove(s: string, c: char): string {
    if s == [] then [] else (if s[0] == c then [] else [s[0]]) + Remove(s[1..], c)
  }

  /** Removing a character that does not occur changes nothing. */
  lemma {:induction false} RemoveAbsent(s: string, c: char)
    requires c !in s
    ensures Remove(s, c) == s
  {
    if s != [] {
      RemoveAbsent(s[1..], c);
    }
  }

  /** Removal deletes every `c`, never lengthens the text and introduces
      no character. */
  lemma {:induction false} RemoveFacts(s: string, c: char)
    ensures c !in Remove(s, c)
    ensures |Remove(s, c)| <= |s|
    ensures forall x :: x in Remove(s, c) ==> x in s
  {
    if s != [] {
      RemoveFacts(s[1..], c);
    }
  }

  /** `clean_text`: the matching key of a title or a query. */
  function CleanText(s: string): (r: string)
    ensures '-' !in r && ' ' !in r
    ensures forall x :: x in r ==> !IsUpper(x)
    ensures |r| <= |s|
  {
    var lowered := Lower(s);
    RemoveFacts(lowered, '-');
    RemoveFacts(Remove(lowered, '-'), ' ');
    Remove(Remove(lowered, '-'), ' ')
  }

  lemma {:induction false} RemoveAppend(a: string, b: string, c: char)
    ensures Remove(a + b, c) == Remove(a, c) + Remove(b, c)
  {
    if a == [] {
      assert a + b == b;
    } else {
      var head := if a[0] == c then [] else [a[0]];
      var ab := a + b;
      assert ab[0] == a[0] && ab[1..] == a[1..] + b;
      assert Remove(ab, c) == head + Remove(a[1..] + b, c);
      RemoveAppend(a[1..], b, c);
      assert Remove(a, c) == head + Remove(a[1..], c);
    }
  }

  /** Cleaning is idempotent: a cleaned key cleans to itself. */
  lemma {:induction false} CleanTextIdempotent(s: string)
    ensures CleanText(CleanText(s)) == CleanText(s)
  {
    CleanTextFixed(CleanText(s));
  }

  /** A string with no capital, hyphen or space is its own key. */
  lemma {:induction false} CleanTextFixed(s: string)
    requires forall x :: x in s ==> !IsUpper(x) && x != '-' && x != ' '
    ensures CleanText(s) == s
  {
    assert Lower(s) == s by {
      forall i | 0 <= i < |s| ensures Lower(s)[i] == s[i] {
        assert s[i] in s;
      }
    }
    RemoveAbsent(s, '-');
    RemoveAbsent(s, ' ');
  }

  /** Cleaning distributes over concatenation. */
  lemma {:induction false} CleanTextAppend(a: string, b: string)
    ensures CleanText(a + b) == CleanText(a) + CleanText(b)
  {
    var la, lb := Lower(a), Lower(b);
    LowerAppend(a, b);
    RemoveAppend(la, lb, '-');
    var ra, rb := Remove(la, '-'), Remove(lb, '-');
    RemoveAppend(ra, rb, ' ');
  }

  lemma {:induction false} LowerAppend(a: string, b: string)
    ensures Lower(a + b) == Lower(a) + Lower(b)
  {
  }

  /** Inserting a hyphen or a space anywhere does not change the key. */
  lemma {:induction false} CleanTextIgnoresSeparator(a: string, c: char, b: string)
    requires c == '-' || c == ' '
    ensures CleanText(a + [c] + b) == CleanText(a + b)
  {
    var ac := a + [c];
    CleanTextAppend(ac, b);
    CleanTextAppend(a, [c]);
    CleanTextAppend(a, b);
    CleanSeparator(c);
    assert CleanText(ac) == CleanText(a);
  }

  lemma {:induction false} CleanSeparator(c: char)
    requires c == '-' || c == ' '
    ensures CleanText([c]) == []
  {
    assert Lower([c]) == [c];
    assert Remove([c], '-') == if c == '-' then [] else [c] by {
      assert [c][1..] == [];
    }
    assert Remove(Remove([c], '-'), ' ') == [] by {
      if c == ' ' {
        assert [c][1..] == [];
      }
    }
  }

  /** Two strings that agree letter by letter up to case have the same key. */
  lemma {:induction false} CleanTextIgnoresCase(s: string, t: string)
    requires |s| == |t|
    requires forall i :: 0 <= i < |s| ==> LowerChar(s[i]) == LowerChar(t[i])
    ensures CleanText(s) == CleanText(t)
  {
    assert Lower(s) == Lower(t);
  }

  /** The key "spiderman" is already clean. */
  lemma {:induction false} SpiderManKey()
    ensures CleanText("spiderman") == "spiderman"
  {
    var key := "spiderman";
    forall x | x in key ensures !IsUpper(x) && x != '-' && x != ' ' {
      var i :| 0 <= i < |key| && key[i] == x;
      assert 'a' <= key[i] <= 'z';
    }
    CleanTextFixed(key);
  }

  /** "SpiderMan" differs from its key only in case. */
  lemma {:induction false} SpiderManCase()
    ensures CleanText("SpiderMan") == "spiderman"
  {
    var title, key := "SpiderMan", "spiderman";
    forall i | 0 <= i < |title| ensures LowerChar(title[i]) == LowerChar(key[i]) {
      if i == 0 || i == 6 {
      } else {
        assert title[i] == key[i];
      }
    }
    CleanTextIgnoresCase(title, key);
    SpiderManKey();
  }

  /** "Spider-Man" is "SpiderMan" with a hyphen inserted. */
  lemma {:induction false} SpiderManHyphen()
    ensures CleanText("Spider-Man") == "spiderman"
  {
    var a, b := "Spider", "Man";
    assert "Spider-Man" == a + ['-'] + b;
    assert "SpiderMan" == a + b;
    CleanTextIgnoresSeparator(a, '-', b);
    SpiderManCase();
  }

  /** "spider man" is "spiderman" with a space inserted. */
  lemma {:induction false} SpiderManSpace()
    ensures CleanText("spider man") == "spiderman"
  {
    var a, b := "spider", "man";
    assert "spider man" == a + [' '] + b;
    assert "spiderman" == a + b;
    CleanTextIgnoresSeparator(a, ' ', b);
    SpiderManKey();
  }
}
