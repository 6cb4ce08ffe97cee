/** The display sanitiser of a radio mode (`remove_accents`). The character
    display cannot render non-ASCII glyphs, so text is decomposed (NFKD),
    which splits accented letters into a base letter and combining marks,
    and every code point outside 7-bit ASCII is then dropped. Metadata comes
    as a dict, which is sanitised value by value. */
module Accents {
  import opened Values

  /** NFKD normalisation (`unicodedata.normalize('NFKD', ...)`). Its Unicode
      tables are outside this model, so it is a parameter. */
  type Normalizer = string -> string

  /** A code point the display can render: 7-bit ASCII. */
  predicate IsAscii(c: char) {
    (c as int) < 128
  }

  predicate AllAscii(s: string) {
    forall i :: 0 <= i < |s| ==> IsAscii(s[i])
  }

  /** `.encode('ASCII', 'ignore')`: keeps the ASCII code points in order and
      drops every other one; nothing is substituted. */
  function EncodeAsciiIgnore(s: string): (r: string)
    ensures AllAscii(r)
    ensures |r| <= |s|
    decreases |s|
  {
    if s == [] then []
    else
      (if IsAscii(s[0]) then [s[0]] else []) + EncodeAsciiIgnore(s[1..])
  }

  /** The value handed to `remove_accents`: text, an exact `dict` of values
      (`type(data) == dict`), or anything else, which the normalisation step
      rejects. */
  datatype Data<K> = Text(chars: string) | Dict(entries: map<K, Data<K>>) | Opaque

  /** The error the normalisation step raises on a value that is not text
      (a `TypeError` in the source). */
  datatype SanitizeError = UnsupportedInputType

  /** Every value reachable through dicts is text or a dict. */
  predicate Supported<K>(d: Data<K>) {
    match d
    case Text(_) => true
    case Dict(m) => forall k :: k in m ==> Supported(m[k])
    case Opaque => false
  }

  /** Every text reachable through dicts is all ASCII. */
  predicate AsciiData<K>(d: Data<K>) {
    match d
    case Text(s) => AllAscii(s)
    case Dict(m) => forall k :: k in m ==> AsciiData(m[k])
    case Opaque => true
  }

  /** Text stays text and a dict stays a dict with exactly the same keys, at
      every depth. */
  predicate SameShape<K>(d: Data<K>, e: Data<K>) {
    match d
    case Text(_) => e.Text?
    case Dict(m) =>
      && e.Dict?
      && m.Keys == e.entries.Keys
      && forall k :: k in m ==> SameShape(m[k], e.entries[k])
    case Opaque => e.Opaque?
  }

  /** The text branch: decompose, then keep only ASCII. */
  function SanitizeText(nfkd: Normalizer, s: string): (r: string)
    ensures AllAscii(r)
  {
    EncodeAsciiIgnore(nfkd(s))
  }

  /** `remove_accents(data)`: a dict is rebuilt over the same keys with every
      value sanitised; text is sanitised; anything else is an error, which
      also aborts the dict that holds it. */
  function RemoveAccents<K>(nfkd: Normalizer, d: Data<K>): (r: Result<Data<K>, SanitizeError>)
    ensures r.Success? <==> Supported(d)
    ensures r.Failure? ==> r.error == UnsupportedInputType
    ensures r.Success? ==> AsciiData(r.value) && SameShape(d, r.value)
    ensures d.Text? ==> r == Success(Text(SanitizeText(nfkd, d.chars)))
    ensures r.Success? && d.Dict? ==>
      forall k :: k in d.entries ==> RemoveAccents(nfkd, d.entries[k]) == Success(r.value.entries[k])
  {
    match d
    case Text(s) => Success(Text(SanitizeText(nfkd, s)))
    case Dict(m) =>
      if forall k :: k in m ==> RemoveAccents(nfkd, m[k]).Success? then
        Success(Dict(map k | k in m :: RemoveAccents(nfkd, m[k]).value))
      else
        Failure(UnsupportedInputType)
    case Opaque => Failure(UnsupportedInputType)
  }
}
