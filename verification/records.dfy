/** The catalogue's record, the shape constraints that the write paths
    establish on it, and tag normalisation (the comma-split shared by Add
    and Edit). */
module Records {
  import opened Text
  import Seqs

  /** One catalogued picture, with the fields in the order the source
      builds them. `imageDataUrl` is the inline-encoded image, opaque here. */
  datatype Item = Item(
    id: string,
    imageDataUrl: string,
    businessName: string,
    contactName: string,
    contactInfo: string,
    pictureTitle: string,
    pictureDescription: string,
    tags: seq<string>,
    createdAt: string)

  /** A tag as the write paths store it: non-empty, trimmed, comma-free. */
  predicate IsTag(t: string) {
    t != [] && ',' !in t && IsTrimmed(t)
  }

  predicate NormalTags(tags: seq<string>) {
    forall k :: 0 <= k < |tags| ==> IsTag(tags[k])
  }

  /** What Add and Edit guarantee of every record they write. */
  predicate WellFormed(item: Item) {
    && IsTrimmed(item.businessName)
    && IsTrimmed(item.contactName)
    && IsTrimmed(item.contactInfo)
    && IsTrimmed(item.pictureTitle)
    && IsTrimmed(item.pictureDescription)
    && NormalTags(item.tags)
  }

  /** No two records share an id. */
  predicate UniqueIds(items: seq<Item>) {
    forall i, j :: 0 <= i < j < |items| ==> items[i].id != items[j].id
  }

  predicate HasId(items: seq<Item>, id: string) {
    exists k :: 0 <= k < |items| && items[k].id == id
  }

  function TrimAll(parts: seq<string>): (r: seq<string>)
    ensures |r| == |parts|
    ensures forall k :: 0 <= k < |parts| ==> r[k] == Trim(parts[k])
  {
    seq(|parts|, k requires 0 <= k < |parts| => Trim(parts[k]))
  }

  /** `raw.split(',').map(t => t.trim()).filter(Boolean)`: every
      non-blank comma-separated piece, trimmed, in the order typed. */
  function NormalizeTags(raw: string): (r: seq<string>)
    ensures NormalTags(r)
    ensures Seqs.IsSubsequence(r, TrimAll(Split(raw, ',')))
    ensures forall t :: t in r <==> t in TrimAll(Split(raw, ',')) && t != []
    ensures forall t :: multiset(r)[t] == if t != [] then multiset(TrimAll(Split(raw, ',')))[t] else 0
    ensures ',' !in raw ==> r == (if Trim(raw) == [] then [] else [Trim(raw)])
  {
    var pieces := Split(raw, ',');
    var r := Seqs.Filter(TrimAll(pieces), NonBlank);
    KeptPiecesAreTags(pieces, r);
    if ',' !in raw then
      NormalizeOnePiece(raw);
      r
    else r
  }

  /** `filter(Boolean)` on strings: only the empty string is dropped. */
  predicate NonBlank(t: string) {
    t != []
  }

  /** The non-blank trimmed pieces of comma-free text are tags. */
  lemma KeptPiecesAreTags(pieces: seq<string>, r: seq<string>)
    requires forall k :: 0 <= k < |pieces| ==> ',' !in pieces[k]
    requires forall t :: t in r <==> t in TrimAll(pieces) && NonBlank(t)
    ensures NormalTags(r)
  {
    var trimmed := TrimAll(pieces);
    forall k | 0 <= k < |r|
      ensures IsTag(r[k])
    {
      assert r[k] in trimmed;
      var j :| 0 <= j < |trimmed| && trimmed[j] == r[k];
      assert ',' !in pieces[j];
    }
  }

  /** Text without a comma is one piece: one tag, or none when blank. */
  lemma NormalizeOnePiece(raw: string)
    requires ',' !in raw
    ensures Seqs.Filter(TrimAll(Split(raw, ',')), NonBlank) == if Trim(raw) == [] then [] else [Trim(raw)]
  {
    var trimmed := TrimAll(Split(raw, ','));
    assert Split(raw, ',') == [raw];
    assert trimmed == [Trim(raw)];
    assert trimmed[1..] == [];
  }

  /** The tag pieces after the first, each with the space that `join(', ')`
      puts before it. */
  function Spaced(ts: seq<string>): (r: seq<string>)
    ensures |r| == |ts|
    ensures forall k :: 0 <= k < |ts| ==> r[k] == [' '] + ts[k]
  {
    seq(|ts|, k requires 0 <= k < |ts| => [' '] + ts[k])
  }

  lemma {:induction false} JoinCommaSpace(ts: seq<string>)
    requires |ts| >= 1
    ensures [' '] + Join(ts, ", ") == Join(Spaced(ts), ",")
    decreases |ts|
  {
    if |ts| > 1 {
      JoinCommaSpace(ts[1..]);
      assert Spaced(ts)[1..] == Spaced(ts[1..]);
    }
  }

  /** The pieces that splitting `tags.join(', ')` on commas produces. */
  function CommaPieces(tags: seq<string>): (r: seq<string>)
    requires |tags| >= 1
    ensures |r| == |tags|
  {
    [tags[0]] + Spaced(tags[1..])
  }

  /** Regrouping a comma followed by a space-prefixed piece; stated apart
      so that the piece stays an abstract string rather than a `Join`. */
  lemma CommaThenSpace(a: string, x: string)
    ensures a + "," + ([' '] + x) == a + ", " + x
  {
    assert ", " == [','] + [' '];
  }

  lemma JoinCommaPieces(tags: seq<string>)
    requires |tags| >= 1
    ensures Join(CommaPieces(tags), ",") == Join(tags, ", ")
  {
    var pieces := CommaPieces(tags);
    if |tags| > 1 {
      var x := Join(tags[1..], ", ");
      CommaThenSpace(tags[0], x);
      JoinCommaSpace(tags[1..]);
      assert pieces[1..] == Spaced(tags[1..]);
      assert Join(pieces, ",") == pieces[0] + "," + Join(pieces[1..], ",");
      assert Join(tags, ", ") == tags[0] + ", " + x;
    }
  }

  lemma CommaPiecesHaveNoComma(tags: seq<string>)
    requires |tags| >= 1 && NormalTags(tags)
    ensures forall k :: 0 <= k < |tags| ==> ',' !in CommaPieces(tags)[k]
  {
    var pieces := CommaPieces(tags);
    forall k | 0 <= k < |pieces|
      ensures ',' !in pieces[k]
    {
      assert IsTag(tags[k]);
      if k > 0 {
        assert pieces[k] == [' '] + tags[k];
      }
    }
  }

  lemma SplitJoinedTags(tags: seq<string>)
    requires |tags| >= 1 && NormalTags(tags)
    ensures Split(Join(tags, ", "), ',') == CommaPieces(tags)
  {
    JoinCommaPieces(tags);
    CommaPiecesHaveNoComma(tags);
    SplitJoin(CommaPieces(tags), ',');
  }

  lemma TrimCommaPieces(tags: seq<string>)
    requires |tags| >= 1 && NormalTags(tags)
    ensures TrimAll(CommaPieces(tags)) == tags
  {
    var pieces := CommaPieces(tags);
    var trimmed := TrimAll(pieces);
    forall k | 0 <= k < |pieces|
      ensures trimmed[k] == tags[k]
    {
      assert IsTag(tags[k]);
      if k > 0 {
        assert pieces[k] == [' '] + tags[k];
        TrimSpacePrefix(tags[k]);
      }
    }
  }

  /** The edit dialog pre-fills the tag prompt with `tags.join(', ')`;
      normalising that text gives back normalised tags unchanged. */
  lemma NormalizeJoinRoundTrip(tags: seq<string>)
    requires NormalTags(tags)
    ensures NormalizeTags(Join(tags, ", ")) == tags
  {
    if |tags| == 0 {
      assert Split("", ',') == [""];
      assert TrimAll([""]) == [""];
    } else {
      SplitJoinedTags(tags);
      TrimCommaPieces(tags);
    }
  }

  /** Dropping records never creates an id clash. */
  lemma {:induction false} SubsequenceKeepsUniqueIds(a: seq<Item>, b: seq<Item>)
    requires Seqs.IsSubsequence(a, b) && UniqueIds(b)
    ensures UniqueIds(a)
    decreases |b|
  {
    if a != [] {
      if a[0] == b[0] && Seqs.IsSubsequence(a[1..], b[1..]) {
        SubsequenceKeepsUniqueIds(a[1..], b[1..]);
        Seqs.SubsequenceMembers(a[1..], b[1..]);
        forall j | 0 < j < |a|
          ensures a[0].id != a[j].id
        {
          assert a[j] in a[1..];
          var m :| 0 <= m < |b[1..]| && b[1..][m] == a[j];
          assert b[m + 1] == a[j];
        }
        forall i, j | 0 <= i < j < |a|
          ensures a[i].id != a[j].id
        {
          if i > 0 {
            assert a[i] == a[1..][i - 1] && a[j] == a[1..][j - 1];
          }
        }
      } else {
        SubsequenceKeepsUniqueIds(a, b[1..]);
      }
    }
  }
}
