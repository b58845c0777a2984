/** Character strings as the C code cuts them up: `strsep` keeps the empty
    fields between two separators, `strtok` drops them. Both are specified
    here once, as functions on `string`; the loops that compute them live
    with their callers. */
module Text {

  const Space: char := ' '

  /** Number of occurrences of `c` in `s`. */
  function Count(s: string, c: char): nat
  {
    if s == [] then 0 else Count(s[..|s| - 1], c) + (if s[|s| - 1] == c then 1 else 0)
  }

  /** The fields of `s` between single `sep` characters, empty fields kept:
      what repeated `strsep(&line, " ")` hands back. */
  function Fields(s: string, sep: char): (r: seq<string>)
    ensures |r| == Count(s, sep) + 1
  {
    if s == [] then [[]] else Extend(Fields(s[..|s| - 1], sep), s[|s| - 1], sep)
  }

  /** The fields after one more character: a separator opens a new field,
      anything else lengthens the last one. */
  function Extend(p: seq<string>, c: char, sep: char): (r: seq<string>)
    requires |p| >= 1
    ensures |r| == |p| + (if c == sep then 1 else 0)
  {
    if c == sep then p + [[]] else p[..|p| - 1] + [p[|p| - 1] + [c]]
  }

  /** The fields glued back together with `sep` between them. */
  function Join(parts: seq<string>, sep: char): string
    requires |parts| >= 1
  {
    if |parts| == 1 then parts[0]
    else Join(parts[..|parts| - 1], sep) + [sep] + parts[|parts| - 1]
  }

  /** The non-empty members of `fs`, in order. */
  function NonEmpty(fs: seq<string>): seq<string>
  {
    if fs == [] then []
    else NonEmpty(fs[..|fs| - 1]) + (if fs[|fs| - 1] == [] then [] else [fs[|fs| - 1]])
  }

  /** The tokens `strtok(s, " ")` returns one by one: the maximal runs of
      non-space characters. */
  function Tokens(s: string): seq<string>
  {
    NonEmpty(Fields(s, Space))
  }

  /** `line[strlen(line)-1] = '\0'`, as both programs apply it to what they
      read: the last character is dropped, newline or not. */
  function StripLast(raw: string): string
    requires |raw| >= 1
  {
    raw[..|raw| - 1]
  }

  /** ASCII lower case, the folding `strcasecmp` applies. */
  function Lower(c: char): char
  {
    if 'A' <= c <= 'Z' then (c as int + 32) as char else c
  }

  /** `strcasecmp(a, b) == 0`. */
  predicate EqualsIgnoreCase(a: string, b: string)
  {
    |a| == |b| && forall i :: 0 <= i < |a| ==> Lower(a[i]) == Lower(b[i])
  }

  /** Joining the fields of a line gives the line back. */
  lemma {:induction false} JoinFields(s: string, sep: char)
    ensures Join(Fields(s, sep), sep) == s
  {
    if s != [] {
      var s', c := s[..|s| - 1], s[|s| - 1];
      JoinFields(s', sep);
      JoinExtend(Fields(s', sep), c, sep);
      assert s == s' + [c];
    }
  }

  /** Joining after one more character is joining before it, then the
      character. */
  lemma JoinExtend(p: seq<string>, c: char, sep: char)
    requires |p| >= 1
    ensures Join(Extend(p, c, sep), sep) == Join(p, sep) + [c]
  {
    var k := |p|;
    var q := Extend(p, c, sep);
    if c == sep {
      assert q[..k] == p;
    } else if k > 1 {
      assert q[..k - 1] == p[..k - 1];
    }
  }

  /** A string without separator is one field. */
  lemma {:induction false} FieldsNoSep(s: string, sep: char)
    requires sep !in s
    ensures Fields(s, sep) == [s]
  {
    if s != [] {
      var s' := s[..|s| - 1];
      assert sep !in s' by {
        forall i | 0 <= i < |s'| ensures s'[i] != sep { assert s'[i] == s[i]; }
      }
      FieldsNoSep(s', sep);
      assert s == s' + [s[|s| - 1]];
    }
  }

  /** One more character read after `s`, whose fields are `done` and the
      field `cut` still open: a separator closes `cut` and opens an empty
      field, any other character joins `cut`. */
  lemma FieldsSnoc(done: seq<string>, cut: string, s: string, c: char, sep: char)
    requires done + [cut] == Fields(s, sep)
    ensures Fields(s + [c], sep) == if c == sep then done + [cut] + [[]] else done + [cut + [c]]
  {
    assert (s + [c])[..|s|] == s;
    assert (done + [cut])[..|done|] == done;
  }

  /** Extending fields only touches the last list. */
  lemma ExtendAppend(fa: seq<string>, fb: seq<string>, c: char, sep: char)
    requires |fb| >= 1
    ensures Extend(fa + fb, c, sep) == fa + Extend(fb, c, sep)
  {
    var p := fa + fb;
    if c != sep {
      assert p[..|p| - 1] == fa + fb[..|fb| - 1];
    }
  }

  /** A separator splits the fields of what precedes it from those of what follows. */
  lemma {:induction false} FieldsAppend(a: string, b: string, sep: char)
    ensures Fields(a + [sep] + b, sep) == Fields(a, sep) + Fields(b, sep)
  {
    if b == [] {
      assert a + [sep] + b == a + [sep];
      assert (a + [sep])[..|a|] == a;
    } else {
      var b', c := b[..|b| - 1], b[|b| - 1];
      var x := a + [sep] + b';
      FieldsAppend(a, b', sep);
      assert a + [sep] + b == x + [c] && (x + [c])[..|x|] == x;
      ExtendAppend(Fields(a, sep), Fields(b', sep), c, sep);
    }
  }

  /** Splitting undoes joining, provided no part holds the separator. */
  lemma {:induction false} FieldsJoin(parts: seq<string>, sep: char)
    requires |parts| >= 1
    requires forall i :: 0 <= i < |parts| ==> sep !in parts[i]
    ensures Fields(Join(parts, sep), sep) == parts
  {
    var last := parts[|parts| - 1];
    FieldsNoSep(last, sep);
    if |parts| > 1 {
      var init := parts[..|parts| - 1];
      var j := Join(init, sep);
      assert Join(parts, sep) == j + [sep] + last;
      assert forall i :: 0 <= i < |init| ==> sep !in init[i] by {
        forall i | 0 <= i < |init| ensures sep !in init[i] { assert init[i] == parts[i]; }
      }
      FieldsJoin(init, sep);
      FieldsAppend(j, last, sep);
      assert parts == init + [last];
    }
  }

  /** One more field: kept when it is not empty. */
  lemma NonEmptySnoc(fs: seq<string>, f: string)
    ensures NonEmpty(fs + [f]) == NonEmpty(fs) + (if f == [] then [] else [f])
  {
    assert (fs + [f])[..|fs|] == fs;
  }

  /** Dropping empty fields never lengthens the list and keeps only non-empty ones. */
  lemma {:induction false} NonEmptyShape(fs: seq<string>)
    ensures |NonEmpty(fs)| <= |fs|
    ensures forall i :: 0 <= i < |NonEmpty(fs)| ==> NonEmpty(fs)[i] != [] && NonEmpty(fs)[i] in fs
  {
    if fs != [] {
      var init := fs[..|fs| - 1];
      NonEmptyShape(init);
      forall i | 0 <= i < |NonEmpty(fs)| ensures NonEmpty(fs)[i] in fs {
        if i < |NonEmpty(init)| {
          assert NonEmpty(fs)[i] == NonEmpty(init)[i];
          assert NonEmpty(init)[i] in init;
        } else {
          assert NonEmpty(fs)[i] == fs[|fs| - 1];
        }
      }
    }
  }

  /** Nothing is dropped exactly when no field is empty. */
  lemma {:induction false} NonEmptyAll(fs: seq<string>)
    ensures |NonEmpty(fs)| == |fs| <==> forall i :: 0 <= i < |fs| ==> fs[i] != []
    ensures (forall i :: 0 <= i < |fs| ==> fs[i] != []) ==> NonEmpty(fs) == fs
  {
    if fs != [] {
      var init := fs[..|fs| - 1];
      NonEmptyAll(init);
      NonEmptyShape(init);
      if forall i :: 0 <= i < |fs| ==> fs[i] != [] {
        assert forall i :: 0 <= i < |init| ==> init[i] != [] by {
          forall i | 0 <= i < |init| ensures init[i] != [] { assert init[i] == fs[i]; }
        }
        assert fs == init + [fs[|fs| - 1]];
      } else if fs[|fs| - 1] != [] {
        var j :| 0 <= j < |fs| && fs[j] == [];
        assert j < |init| && init[j] == [];
      }
    }
  }

  /** No field holds the separator. */
  lemma {:induction false} FieldsSepFree(s: string, sep: char)
    ensures forall i :: 0 <= i < |Fields(s, sep)| ==> sep !in Fields(s, sep)[i]
  {
    if s != [] {
      var s', c := s[..|s| - 1], s[|s| - 1];
      FieldsSepFree(s', sep);
      var p, f := Fields(s', sep), Fields(s, sep);
      forall i | 0 <= i < |f| ensures sep !in f[i] {
        if i < |p| - 1 || (c == sep && i < |p|) {
          assert f[i] == p[i];
        } else if c != sep {
          assert f[i] == p[|p| - 1] + [c];
        }
      }
    }
  }

  /** What `strtok` returns: non-empty, space-free tokens, never more than one
      per space plus one, and exactly the `strsep` fields when the count is met. */
  lemma TokensShape(s: string)
    ensures |Tokens(s)| <= Count(s, Space) + 1
    ensures forall i :: 0 <= i < |Tokens(s)| ==> Tokens(s)[i] != [] && Space !in Tokens(s)[i]
    ensures |Tokens(s)| == Count(s, Space) + 1 ==> Tokens(s) == Fields(s, Space)
  {
    var fs := Fields(s, Space);
    FieldsSepFree(s, Space);
    NonEmptyShape(fs);
    NonEmptyAll(fs);
    forall i | 0 <= i < |Tokens(s)| ensures Space !in Tokens(s)[i] {
      var t := Tokens(s)[i];
      assert t in fs;
      var j :| 0 <= j < |fs| && fs[j] == t;
    }
  }
}
