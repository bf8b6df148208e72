/** The form draft the client edits, and the rules that fill it: one field
    at a time from an input, or all at once from a book chosen for editing. */
module FormRules {
  import opened Types

  /** The five inputs of the form, named as their `name` attributes are. */
  datatype FieldName = Title | Author | Genre | PublicationDate | Description

  /** The draft held in the `form` state: one value per input. */
  datatype Draft = Draft(
    title: Text,
    author: Text,
    genre: Text,
    publicationDate: Text,
    description: Text)

  /** The draft the component starts with and resets to: every field `""`. */
  function EmptyDraft(): (d: Draft)
    ensures forall f :: Get(d, f) == Str("")
  {
    Draft(Str(""), Str(""), Str(""), Str(""), Str(""))
  }

  /** The value the draft holds for one input. */
  function Get(d: Draft, f: FieldName): Text {
    match f
    case Title => d.title
    case Author => d.author
    case Genre => d.genre
    case PublicationDate => d.publicationDate
    case Description => d.description
  }

  /** `{ ...form, [name]: value }`: the named input takes the new value and
      every other input keeps its old one. */
  function SetField(d: Draft, f: FieldName, value: string): (r: Draft)
    ensures Get(r, f) == Str(value)
    ensures forall g :: g != f ==> Get(r, g) == Get(d, g)
  {
    match f
    case Title => d.(title := Str(value))
    case Author => d.(author := Str(value))
    case Genre => d.(genre := Str(value))
    case PublicationDate => d.(publicationDate := Str(value))
    case Description => d.(description := Str(value))
  }

  /** Two drafts that agree on every input are the same draft, so the two
      ensures of SetField determine its result. */
  lemma DraftExtensional(d: Draft, e: Draft)
    requires forall f :: Get(d, f) == Get(e, f)
    ensures d == e
  {
    assert Get(d, Title) == Get(e, Title) && Get(d, Author) == Get(e, Author);
    assert Get(d, Genre) == Get(e, Genre) && Get(d, PublicationDate) == Get(e, PublicationDate);
    assert Get(d, Description) == Get(e, Description);
  }

  /** Setting the same input twice keeps only the second value. */
  lemma SetFieldTwice(d: Draft, f: FieldName, v: string, w: string)
    ensures SetField(SetField(d, f, v), f, w) == SetField(d, f, w)
  {
    DraftExtensional(SetField(SetField(d, f, v), f, w), SetField(d, f, w));
  }

  // ---------------------------------------------------------------------
  // Date normalisation

  /** `s.split("T")[0]`: the part of `s` before its first `'T'`, or all of
      `s` when it has none. */
  function DatePrefix(s: string): (r: string)
    ensures r <= s && 'T' !in r
  {
    if s == [] then []
    else if s[0] == 'T' then []
    else [s[0]] + DatePrefix(s[1..])
  }

  /** The prefix is a prefix of the string, holds no `'T'`, and ends either
      at the end of the string or right before its first `'T'`. */
  lemma {:induction false} DatePrefixSpec(s: string)
    ensures DatePrefix(s) <= s
    ensures 'T' !in DatePrefix(s)
    ensures |DatePrefix(s)| == |s| || s[|DatePrefix(s)|] == 'T'
    ensures 'T' !in s ==> DatePrefix(s) == s
  {
    if s != [] && s[0] != 'T' {
      DatePrefixSpec(s[1..]);
      assert s == [s[0]] + s[1..];
    }
  }

  /** The three properties above pin the prefix down: any string with them
      is the prefix. */
  lemma {:induction false} DatePrefixUnique(s: string, p: string)
    requires p <= s && 'T' !in p
    requires |p| == |s| || s[|p|] == 'T'
    ensures p == DatePrefix(s)
  {
    if s != [] && p != [] {
      assert p[0] == s[0];
      assert p[1..] <= s[1..];
      assert |p[1..]| == |s[1..]| || s[1..][|p[1..]|] == 'T';
      DatePrefixUnique(s[1..], p[1..]);
      assert p == [p[0]] + p[1..];
    }
  }

  /** Normalising an already normalised date gives it back unchanged. */
  lemma {:induction false} DatePrefixIdempotent(s: string)
    ensures DatePrefix(DatePrefix(s)) == DatePrefix(s)
  {
    DatePrefixSpec(s);
    DatePrefixSpec(DatePrefix(s));
  }

  /** `book.publication_date ? book.publication_date.split("T")[0] : ""` */
  function NormalizeDate(date: Text): (r: Text)
    ensures r.Str?
    ensures date.Truthy() ==> r.s <= date.s && 'T' !in r.s
    ensures date.Truthy() ==> |r.s| == |date.s| || date.s[|r.s|] == 'T'
    ensures date.Truthy() && 'T' !in date.s ==> r == date
    ensures !date.Truthy() ==> r == Str("")
  {
    if date.Truthy() then
      DatePrefixSpec(date.s);
      Str(DatePrefix(date.s))
    else Str("")
  }

  /** The draft `handleEditClick` builds from a book: four fields copied
      verbatim, the date normalised. */
  function DraftOf(b: Book): (d: Draft)
    ensures d.title == b.title && d.author == b.author
    ensures d.genre == b.genre && d.description == b.description
    ensures d.publicationDate.Str? && 'T' !in d.publicationDate.s
    ensures b.publicationDate.Truthy() ==> d.publicationDate.s <= b.publicationDate.s
    ensures !b.publicationDate.Truthy() ==> d.publicationDate == Str("")
  {
    Draft(b.title, b.author, b.genre, NormalizeDate(b.publicationDate), b.description)
  }

  /** Normalising the date of a draft built for editing changes nothing. */
  lemma {:induction false} NormalizeDateIdempotent(date: Text)
    ensures NormalizeDate(NormalizeDate(date)) == NormalizeDate(date)
  {
    if date.Truthy() {
      DatePrefixIdempotent(date.s);
    }
  }
}
