/** The attribute mapping of `Scraper#profile`: the profile block of a user's
    page is a list of (Japanese label, value) pairs; each canonical
    attribute takes the value of its label, and the name comes from the
    page's title heading. */
module ProfileMapping {
  import opened Records

  /** `PROFILE_ATTRIBUTES`, one constructor per member, in that order. */
  datatype Attribute =
    | Name | Gender | Age | BloodType | Job | Address | Url | Description
    | FirstDay | ElapsedDays | ReadBooksCount | ReadPagesCount | ReviewsCount | BookshelfsCount

  const ProfileAttributes: seq<Attribute> :=
    [Name, Gender, Age, BloodType, Job, Address, Url, Description,
     FirstDay, ElapsedDays, ReadBooksCount, ReadPagesCount, ReviewsCount, BookshelfsCount]

  /** `JP_ATTRIBUTE_NAMES[attribute]`: the label the site shows for it; the
      name has none. */
  function JpAttributeName(a: Attribute): Option<string> {
    match a
    case Name => None
    case Gender => Some("性別")
    case Age => Some("年齢")
    case BloodType => Some("血液型")
    case Job => Some("職業")
    case Address => Some("現住所")
    case Url => Some("URL / ブログ")
    case Description => Some("自己紹介")
    case FirstDay => Some("記録初日")
    case ElapsedDays => Some("経過日数")
    case ReadBooksCount => Some("読んだ本")
    case ReadPagesCount => Some("読んだページ")
    case ReviewsCount => Some("感想/レビュー")
    case BookshelfsCount => Some("本棚")
  }

  /** Distinct attributes have distinct labels, so no label feeds two attributes. */
  lemma JpAttributeNamesDistinct(a: Attribute, b: Attribute)
    requires a != b && JpAttributeName(a).Some?
    ensures JpAttributeName(a) != JpAttributeName(b)
  {
  }

  /** `Hash[labels.zip(values)][key]`: the value paired with the last
      occurrence of `key`, since a later pair overwrites an earlier one. */
  function Lookup(labels: seq<string>, values: seq<string>, key: string): Option<string>
    requires |labels| == |values|
    decreases |labels|
  {
    if labels == [] then None
    else if labels[|labels| - 1] == key then Some(values[|values| - 1])
    else Lookup(labels[..|labels| - 1], values[..|values| - 1], key)
  }

  /** The lookup finds a value exactly when the label occurs, and then the
      value paired with its last occurrence. */
  lemma {:induction false} LookupSpec(labels: seq<string>, values: seq<string>, key: string)
    requires |labels| == |values|
    ensures Lookup(labels, values, key).None? <==> key !in labels
    ensures Lookup(labels, values, key).Some? ==>
      exists i :: 0 <= i < |labels| && labels[i] == key && Lookup(labels, values, key).value == values[i]
        && forall j :: i < j < |labels| ==> labels[j] != key
    decreases |labels|
  {
    if labels != [] {
      var n := |labels|;
      LookupSpec(labels[..n - 1], values[..n - 1], key);
      assert labels == labels[..n - 1] + [labels[n - 1]];
      if labels[n - 1] != key && Lookup(labels, values, key).Some? {
        var front, vfront := labels[..n - 1], values[..n - 1];
        var i :| 0 <= i < n - 1 && front[i] == key
          && Lookup(labels, values, key).value == vfront[i]
          && forall j :: i < j < n - 1 ==> front[j] != key;
        assert labels[i] == key && values[i] == vfront[i];
      }
    }
  }

  /** `jp_attributes[JP_ATTRIBUTE_NAMES[attribute]]`. */
  function LabelValue(labels: seq<string>, values: seq<string>, a: Attribute): Option<string>
    requires |labels| == |values|
  {
    match JpAttributeName(a)
    case None => None
    case Some(jp) => Lookup(labels, values, jp)
  }

  /** `Profile.new(*attributes)`: one optional value per attribute, in the
      order of `ProfileAttributes`. */
  datatype Profile = Profile(fields: seq<Option<string>>)

  /** The attribute values of the profile block, with the title text as the
      name; a page without the title heading makes the source raise. */
  function ProfileOf(labels: seq<string>, values: seq<string>, title: Option<string>): (r: Result<Profile>)
    requires |labels| == |values|
    ensures r.Ok? <==> title.Some?
    ensures r.Ok? ==> |r.value.fields| == |ProfileAttributes|
    ensures r.Ok? ==> r.value.fields[0] == Some(title.value)
    ensures r.Ok? ==> forall k :: 1 <= k < |ProfileAttributes| ==>
      JpAttributeName(ProfileAttributes[k]).Some?
      && r.value.fields[k] == Lookup(labels, values, JpAttributeName(ProfileAttributes[k]).value)
  {
    if title.None? then Err(MissingTitle)
    else
      var mapped := seq(|ProfileAttributes|, k requires 0 <= k < |ProfileAttributes| =>
        LabelValue(labels, values, ProfileAttributes[k]));
      Ok(Profile(mapped[0 := Some(title.value)]))
  }

  /** An attribute whose label is absent from the page is absent from the
      profile (and is not an error), e.g. a missing blood type. */
  lemma MissingLabelIsAbsent(labels: seq<string>, values: seq<string>, title: string, k: nat)
    requires |labels| == |values|
    requires 1 <= k < |ProfileAttributes| && JpAttributeName(ProfileAttributes[k]).value !in labels
    ensures ProfileOf(labels, values, Some(title)).Ok?
    ensures ProfileOf(labels, values, Some(title)).value.fields[k] == None
  {
    LookupSpec(labels, values, JpAttributeName(ProfileAttributes[k]).value);
  }
}
