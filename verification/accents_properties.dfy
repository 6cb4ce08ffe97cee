/** Properties of the display sanitiser: the ASCII filter is a filter (it
    distributes over concatenation and keeps or drops each code point on its
    own), it is idempotent, and under the assumption that NFKD leaves ASCII
    text alone the whole sanitiser is idempotent too. */
module AccentsProperties {
  import opened Values
  import opened Accents

  /** The one fact about NFKD these properties rely on: it maps all-ASCII
      text to itself (ASCII characters have no decomposition). */
  ghost predicate FixesAscii(nfkd: Normalizer) {
    forall s :: AllAscii(s) ==> nfkd(s) == s
  }

  /** The filter works code point by code point: filtering a concatenation
      filters each part. */
  lemma {:induction false} EncodeAppend(a: string, b: string)
    ensures EncodeAsciiIgnore(a + b) == EncodeAsciiIgnore(a) + EncodeAsciiIgnore(b)
    decreases |a|
  {
    if a == [] {
      assert a + b == b;
    } else {
      var head := if IsAscii(a[0]) then [a[0]] else [];
      assert (a + b)[0] == a[0];
      assert (a + b)[1..] == a[1..] + b;
      assert EncodeAsciiIgnore(a + b) == head + EncodeAsciiIgnore(a[1..] + b);
      EncodeAppend(a[1..], b);
      assert EncodeAsciiIgnore(a) == head + EncodeAsciiIgnore(a[1..]);
    }
  }

  /** One code point is kept when it is ASCII and dropped otherwise; it is
      never replaced. With EncodeAppend this pins the filter down completely;
      Dafny sees it by unfolding the filter once, and the worked examples
      below use it as a stepping stone. */
  lemma EncodeSingle(c: char)
    ensures EncodeAsciiIgnore([c]) == if IsAscii(c) then [c] else []
  {
  }

  /** The filter leaves a text unchanged exactly when it is all ASCII. */
  lemma {:induction false} EncodeFixesExactlyAscii(s: string)
    ensures EncodeAsciiIgnore(s) == s <==> AllAscii(s)
    decreases |s|
  {
    if s != [] {
      EncodeFixesExactlyAscii(s[1..]);
    }
  }

  /** Nothing is substituted: the filter keeps every ASCII code point as
      often as the input has it, and no other code point at all. */
  lemma {:induction false} EncodeCounts(s: string)
    ensures forall c :: IsAscii(c) ==> multiset(EncodeAsciiIgnore(s))[c] == multiset(s)[c]
    ensures forall c :: !IsAscii(c) ==> multiset(EncodeAsciiIgnore(s))[c] == 0
    decreases |s|
  {
    if s != [] {
      assert s == [s[0]] + s[1..];
      EncodeCounts(s[1..]);
    }
  }

  /** The filter is idempotent. */
  lemma EncodeIdempotent(s: string)
    ensures EncodeAsciiIgnore(EncodeAsciiIgnore(s)) == EncodeAsciiIgnore(s)
  {
    EncodeFixesExactlyAscii(EncodeAsciiIgnore(s));
  }

  /** Already-ASCII text is displayed as it is. */
  lemma AsciiTextUnchanged(nfkd: Normalizer, s: string)
    requires FixesAscii(nfkd)
    requires AllAscii(s)
    ensures SanitizeText(nfkd, s) == s
  {
    EncodeFixesExactlyAscii(s);
  }

  /** Sanitising text twice gives the same as sanitising it once. */
  lemma SanitizeTextIdempotent(nfkd: Normalizer, s: string)
    requires FixesAscii(nfkd)
    ensures SanitizeText(nfkd, SanitizeText(nfkd, s)) == SanitizeText(nfkd, s)
  {
    AsciiTextUnchanged(nfkd, SanitizeText(nfkd, s));
  }

  /** Values of the same shape are supported alike. */
  lemma {:induction false} SameShapeSupported<K>(d: Data<K>, e: Data<K>)
    requires SameShape(d, e)
    ensures Supported(d) <==> Supported(e)
    decreases d
  {
    match d {
      case Text(_) =>
      case Opaque =>
      case Dict(m) =>
        forall k | k in m
          ensures Supported(m[k]) <==> Supported(e.entries[k])
        {
          SameShapeSupported(m[k], e.entries[k]);
        }
    }
  }

  /** A supported value whose texts are all ASCII is returned unchanged. */
  lemma {:induction false} AsciiDataUnchanged<K>(nfkd: Normalizer, d: Data<K>)
    requires FixesAscii(nfkd)
    requires Supported(d) && AsciiData(d)
    ensures RemoveAccents(nfkd, d) == Success(d)
    decreases d
  {
    match d {
      case Text(s) =>
        AsciiTextUnchanged(nfkd, s);
      case Dict(m) =>
        forall k | k in m
          ensures RemoveAccents(nfkd, m[k]) == Success(m[k])
        {
          AsciiDataUnchanged(nfkd, m[k]);
        }
        var r := RemoveAccents(nfkd, d);
        assert r.value.entries == m;
    }
  }

  /** Sanitising twice gives the same as sanitising once, for text and for
      dicts nested to any depth. */
  lemma RemoveAccentsIdempotent<K>(nfkd: Normalizer, d: Data<K>)
    requires FixesAscii(nfkd)
    requires RemoveAccents(nfkd, d).Success?
    ensures RemoveAccents(nfkd, RemoveAccents(nfkd, d).value) == RemoveAccents(nfkd, d)
  {
    var r := RemoveAccents(nfkd, d);
    SameShapeSupported(d, r.value);
    AsciiDataUnchanged(nfkd, r.value);
  }

  /** "café" is shown as "cafe": NFKD splits é into e and a combining acute
      accent, and the accent is dropped. */
  lemma CafeExample(nfkd: Normalizer)
    requires nfkd("caf\U{e9}") == "cafe\U{301}"
    ensures RemoveAccents<int>(nfkd, Text("caf\U{e9}")) == Success(Text("cafe"))
  {
    assert "cafe\U{301}" == "cafe" + "\U{301}";
    EncodeAppend("cafe", "\U{301}");
    assert AllAscii("cafe");
    EncodeFixesExactlyAscii("cafe");
    EncodeSingle('\U{301}');
    assert EncodeAsciiIgnore("cafe\U{301}") == "cafe";
    assert SanitizeText(nfkd, "caf\U{e9}") == "cafe";
  }

  /** An ASCII prefix passes the filter as it is. */
  lemma KeepAsciiPrefix(a: string, b: string)
    requires AllAscii(a)
    ensures EncodeAsciiIgnore(a + b) == a + EncodeAsciiIgnore(b)
  {
    EncodeAppend(a, b);
    EncodeFixesExactlyAscii(a);
  }

  /** A leading non-ASCII code point is dropped. A stepping stone for the
      worked examples, which Dafny sees by unfolding the filter once. */
  lemma DropNonAsciiHead(c: char, b: string)
    requires !IsAscii(c)
    ensures EncodeAsciiIgnore([c] + b) == EncodeAsciiIgnore(b)
  {
  }

  /** "Déjà vu" is shown as "Deja vu". */
  lemma DejaVuText(nfkd: Normalizer)
    requires nfkd("D\U{e9}j\U{e0} vu") == "De\U{301}ja\U{300} vu"
    ensures SanitizeText(nfkd, "D\U{e9}j\U{e0} vu") == "Deja vu"
  {
    var tail := [' ', 'v', 'u'];
    assert AllAscii(tail);
    KeepAsciiPrefix(tail, []);
    var t1 := ['\U{300}'] + tail;
    DropNonAsciiHead('\U{300}', tail);
    var t2 := ['j', 'a'] + t1;
    assert AllAscii(['j', 'a']);
    KeepAsciiPrefix(['j', 'a'], t1);
    var t3 := ['\U{301}'] + t2;
    DropNonAsciiHead('\U{301}', t2);
    var t4 := ['D', 'e'] + t3;
    assert AllAscii(['D', 'e']);
    KeepAsciiPrefix(['D', 'e'], t3);
    assert t4 == "De\U{301}ja\U{300} vu";
  }

  /** A metadata dict keeps its keys, and each value is sanitised:
      {"a": "Déjà vu", "b": "plain"} is shown as {"a": "Deja vu", "b": "plain"}. */
  lemma MetadataExample(nfkd: Normalizer)
    requires nfkd("D\U{e9}j\U{e0} vu") == "De\U{301}ja\U{300} vu"
    requires nfkd("plain") == "plain"
    ensures RemoveAccents(nfkd, Dict(map["a" := Text("D\U{e9}j\U{e0} vu"), "b" := Text("plain")]))
         == Success(Dict(map["a" := Text("Deja vu"), "b" := Text("plain")]))
  {
    DejaVuText(nfkd);
    assert AllAscii("plain");
    EncodeFixesExactlyAscii("plain");
    var m := map["a" := Text("D\U{e9}j\U{e0} vu"), "b" := Text("plain")];
    var r := RemoveAccents(nfkd, Dict(m));
    assert RemoveAccents(nfkd, m["a"]) == Success(Text("Deja vu"));
    assert RemoveAccents(nfkd, m["b"]) == Success(Text("plain"));
    assert r.value.entries == map["a" := Text("Deja vu"), "b" := Text("plain")];
  }
}
