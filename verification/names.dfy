/**
 The two keys the pairing joins on: the compact form of a roster name, and
 the submission key cut from the front of a file name.
 */
module Names {

  /** The characters the compact form deletes: the comma and the plain space. */
  predicate IsSeparator(c: char) {
    c == ',' || c == ' '
  }

  predicate IsUpper(c: char) {
    'A' <= c <= 'Z'
  }

  /** Lower-cases one character; only the ASCII letters change. */
  function LowerChar(c: char): (d: char)
    ensures !IsUpper(d)
    ensures IsSeparator(d) <==> IsSeparator(c)
    ensures !IsUpper(c) ==> d == c
  {
    if IsUpper(c) then (c as int - 'A' as int + 'a' as int) as char else c
  }

  /** Lower-cases every character of `s`. */
  function Lower(s: string): (r: string)
    ensures |r| == |s|
    ensures forall i :: 0 <= i < |s| ==> r[i] == LowerChar(s[i])
  {
    if s == [] then [] else [LowerChar(s[0])] + Lower(s[1..])
  }

  /** `s` with every comma and space deleted. */
  function DeleteSeparators(s: string): (r: string)
    ensures |r| <= |s|
    ensures forall i :: 0 <= i < |r| ==> !IsSeparator(r[i])
  {
    if s == [] then []
    else if IsSeparator(s[0]) then DeleteSeparators(s[1..])
    else [s[0]] + DeleteSeparators(s[1..])
  }

  /** Deleting the separators keeps every other character, as often as it
      occurs. */
  lemma {:induction false} DeleteSeparatorsCounts(s: string, c: char)
    ensures multiset(DeleteSeparators(s))[c] == if IsSeparator(c) then 0 else multiset(s)[c]
  {
    if s != [] {
      DeleteSeparatorsCounts(s[1..], c);
      assert s == [s[0]] + s[1..];
    }
  }

  /** The compact key of a roster name: commas and spaces deleted, then
      lower-cased, so "Doe, Jane" becomes "doejane". */
  function CompactName(name: string): (key: string)
    ensures |key| <= |name|
    ensures forall i :: 0 <= i < |key| ==> !IsSeparator(key[i]) && !IsUpper(key[i])
  {
    Lower(DeleteSeparators(name))
  }

  /** True iff `s` is already in compact form. */
  predicate IsCompact(s: string) {
    forall i :: 0 <= i < |s| ==> !IsSeparator(s[i]) && !IsUpper(s[i])
  }

  // ---------------------------------------------------------------------------
  // Properties of the compact key
  // ---------------------------------------------------------------------------

  lemma {:induction false} LowerConcat(a: string, b: string)
    ensures Lower(a + b) == Lower(a) + Lower(b)
  {
    if a != [] {
      assert (a + b)[1..] == a[1..] + b;
      LowerConcat(a[1..], b);
    } else {
      assert a + b == b;
    }
  }

  lemma {:induction false} DeleteSeparatorsConcat(a: string, b: string)
    ensures DeleteSeparators(a + b) == DeleteSeparators(a) + DeleteSeparators(b)
  {
    if a != [] {
      assert (a + b)[0] == a[0];
      assert (a + b)[1..] == a[1..] + b;
      DeleteSeparatorsConcat(a[1..], b);
    } else {
      assert a + b == b;
    }
  }

  /** The compact key of a concatenation is the concatenation of the keys. */
  lemma CompactNameConcat(a: string, b: string)
    ensures CompactName(a + b) == CompactName(a) + CompactName(b)
  {
    DeleteSeparatorsConcat(a, b);
    LowerConcat(DeleteSeparators(a), DeleteSeparators(b));
  }

  /** Inserting a comma or a space anywhere does not change the key. */
  lemma CompactNameIgnoresSeparator(a: string, c: char, b: string)
    requires IsSeparator(c)
    ensures CompactName(a + [c] + b) == CompactName(a + b)
  {
    CompactNameConcat(a + [c], b);
    CompactNameConcat(a, [c]);
    CompactNameConcat(a, b);
    assert DeleteSeparators([c]) == [] by {
      assert [c][1..] == [];
    }
    assert CompactName(a + [c]) == CompactName(a);
  }

  /** One step of the key on a leading character: a separator is dropped,
      anything else is lower-cased and kept. */
  lemma CompactNameCons(c: char, s: string)
    ensures CompactName([c] + s) == (if IsSeparator(c) then [] else [LowerChar(c)]) + CompactName(s)
  {
    assert ([c] + s)[1..] == s;
  }

  /** Deleting the separators and lower-casing commute. */
  lemma {:induction false} LowerThenDelete(name: string)
    ensures CompactName(name) == DeleteSeparators(Lower(name))
  {
    if name != [] {
      LowerThenDelete(name[1..]);
      assert Lower(name)[1..] == Lower(name[1..]);
    }
  }

  /** Changing the case of the ASCII letters does not change the key. */
  lemma CompactNameIgnoresCase(name: string)
    ensures CompactName(Lower(name)) == CompactName(name)
  {
    LowerThenDelete(name);
    LowerThenDelete(Lower(name));
    LowerIdempotent(name);
  }

  lemma LowerIdempotent(s: string)
    ensures Lower(Lower(s)) == Lower(s)
  {
  }

  /** A string is its own key exactly when it is already compact. */
  lemma {:induction false} CompactNameFixedIff(s: string)
    ensures CompactName(s) == s <==> IsCompact(s)
  {
    if s != [] {
      CompactNameFixedIff(s[1..]);
      if IsCompact(s) {
        assert IsCompact(s[1..]) by {
          forall i | 0 <= i < |s| - 1
            ensures !IsSeparator(s[1..][i]) && !IsUpper(s[1..][i])
          {
            assert s[1..][i] == s[i + 1];
          }
        }
        assert s == [s[0]] + s[1..];
      }
    }
  }

  /** The key is already compact, so taking it twice changes nothing. */
  lemma CompactNameIdempotent(name: string)
    ensures CompactName(CompactName(name)) == CompactName(name)
  {
    CompactNameFixedIff(CompactName(name));
  }

  /** Words joined by separators: the key is the concatenation of the keys
      of the words. */
  lemma CompactNameOfParts(a: string, sep: string, b: string)
    requires forall i :: 0 <= i < |sep| ==> IsSeparator(sep[i])
    ensures CompactName(a + sep + b) == CompactName(a) + CompactName(b)
  {
    assert CompactName(sep) == [] by {
      AllSeparatorsVanish(sep);
    }
    assert CompactName(a + sep) == CompactName(a) by {
      CompactNameConcat(a, sep);
      assert CompactName(a) + [] == CompactName(a);
    }
    CompactNameConcat(a + sep, b);
  }

  lemma {:induction false} AllSeparatorsVanish(sep: string)
    requires forall i :: 0 <= i < |sep| ==> IsSeparator(sep[i])
    ensures DeleteSeparators(sep) == []
  {
    if sep != [] {
      AllSeparatorsVanish(sep[1..]);
    }
  }

  /** The key of the example name "Doe, Jane" is "doejane". */
  lemma DoeJane()
    ensures CompactName("Doe" + ", " + "Jane") == "doejane"
  {
    WordKey("Doe", "doe");
    WordKey("Jane", "jane");
    CompactNameOfParts("Doe", ", ", "Jane");
  }

  /** The key of a word without separators is its lower-cased form. */
  lemma WordKey(word: string, lower: string)
    requires forall i :: 0 <= i < |word| ==> !IsSeparator(word[i])
    requires Lower(word) == lower
    ensures CompactName(word) == lower
  {
    NoSeparatorsKept(word);
  }

  lemma {:induction false} NoSeparatorsKept(s: string)
    requires forall i :: 0 <= i < |s| ==> !IsSeparator(s[i])
    ensures DeleteSeparators(s) == s
  {
    if s != [] {
      NoSeparatorsKept(s[1..]);
      assert s == [s[0]] + s[1..];
    }
  }

  // ---------------------------------------------------------------------------
  // The submission key
  // ---------------------------------------------------------------------------

  /** The part of a file name before its first underscore, or the whole name
      when it has none, as `name.split('_', 1)[0]` gives it. */
  function SubmissionKey(fileName: string): (key: string)
    ensures |key| <= |fileName| && key == fileName[..|key|]
    ensures '_' !in key
    ensures |key| == |fileName| || fileName[|key|] == '_'
  {
    if fileName == [] || fileName[0] == '_' then []
    else [fileName[0]] + SubmissionKey(fileName[1..])
  }

  /** The three properties above pin the key down: any prefix free of
      underscores that stops at an underscore or at the end is the key. */
  lemma SubmissionKeyUnique(fileName: string, key: string)
    requires |key| <= |fileName| && key == fileName[..|key|]
    requires '_' !in key
    requires |key| == |fileName| || fileName[|key|] == '_'
    ensures SubmissionKey(fileName) == key
  {
  }

  /** A file named `<key>_<rest>` has submission key `<key>`. */
  lemma SubmissionKeyOfName(key: string, rest: string)
    requires '_' !in key
    ensures SubmissionKey(key + "_" + rest) == key
  {
    var f := key + "_" + rest;
    assert f[..|key|] == key;
    assert f[|key|] == '_';
    SubmissionKeyUnique(f, key);
  }

  /** The submission key keeps the file name's case: "DoeJane_hw3.pdf" gives
      "DoeJane", which differs from the compact key of "Doe, Jane". */
  lemma SubmissionKeyKeepsCase()
    ensures SubmissionKey("DoeJane_hw3.pdf") == "DoeJane"
    ensures SubmissionKey("DoeJane_hw3.pdf") != CompactName("Doe, Jane")
  {
    SubmissionKeyOfName("DoeJane", "hw3.pdf");
    assert "DoeJane" + "_" + "hw3.pdf" == "DoeJane_hw3.pdf";
    DoeJane();
    assert "Doe" + ", " + "Jane" == "Doe, Jane";
  }
}
