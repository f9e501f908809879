/**
 * The file name a crawler thread derives from the URL it downloaded:
 * `url.replaceAll("[^a-zA-Z0-9]", "_") + ".txt"`.
 *
 * A Dafny `char` is a Unicode scalar value, so a `string` here is the URL's
 * sequence of code points; the regular expression also works on code points,
 * so a character outside the Basic Multilingual Plane is one element here and
 * is replaced by a single '_' there.
 */
module CrawlerFileName {

  const Suffix: string := ".txt"

  /** The character class `[a-zA-Z0-9]`: ASCII letters and digits only. */
  predicate IsAsciiAlphanumeric(c: char) {
    ('a' <= c <= 'z') || ('A' <= c <= 'Z') || ('0' <= c <= '9')
  }

  /** `replaceAll("[^a-zA-Z0-9]", "_")`: one replacement per code point. */
  function Sanitize(url: string): (stem: string)
    ensures |stem| == |url|
    ensures forall i :: 0 <= i < |url| && IsAsciiAlphanumeric(url[i]) ==> stem[i] == url[i]
    ensures forall i :: 0 <= i < |url| && !IsAsciiAlphanumeric(url[i]) ==> stem[i] == '_'
  {
    if url == [] then []
    else [if IsAsciiAlphanumeric(url[0]) then url[0] else '_'] + Sanitize(url[1..])
  }

  /** The name `saveToFile` opens, in both crawler threads. */
  function FileName(url: string): (name: string)
    ensures |name| == |url| + 4
    ensures name[|url|..] == Suffix
    ensures forall i :: 0 <= i < |url| ==> IsAsciiAlphanumeric(name[i]) || name[i] == '_'
  {
    Sanitize(url) + Suffix
  }

  /** Sanitising an already sanitised stem changes nothing. */
  lemma {:induction false} SanitizeIdempotent(url: string)
    ensures Sanitize(Sanitize(url)) == Sanitize(url)
  {
    if url != [] {
      SanitizeIdempotent(url[1..]);
      assert Sanitize(url)[1..] == Sanitize(url[1..]);
    }
  }

  /** Two URLs that differ only in characters outside the class give the same name. */
  lemma FileNameCollision(u: string, v: string)
    requires |u| == |v|
    requires forall i :: 0 <= i < |u| ==>
      (IsAsciiAlphanumeric(u[i]) || IsAsciiAlphanumeric(v[i]) ==> u[i] == v[i])
    ensures FileName(u) == FileName(v)
  {
    assert Sanitize(u) == Sanitize(v);
  }
}
