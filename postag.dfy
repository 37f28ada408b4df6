/** The 28 part-of-speech tags of the index, their ids, names and descriptions. */
module POSTag {
  import opened Wrappers

  /** One constructor per tag, declared in id order. */
  datatype Tag =
    | CC | CD | DT | IN | JJ | JJR | JJS
    | MD | NN | NNS | NNP | NNPS | PRP | RB
    | RBR | RBS | RP | TO | UH | VB | VBD
    | VBG | VBN | VBP | VBZ | WDT | WP | WRB

  /** Descriptions, aligned with the ids. */
  const Descriptions: seq<string> := [
      "Coordinating conjunction",
      "Cardinal number",
      "Determiner",
      "Preposition or subordinating conjunction",
      "Adjective",
      "Adjective, comparative",
      "Adjective, superlative",
      "Modal",
      "Noun, singular or mass",
      "Noun, plural",
      "Proper noun, singular",
      "Proper noun, plural",
      "Personal/Posessive pronoun",
      "Adverb",
      "Adverb, comparative",
      "Adverb, superlative",
      "Particle",
      "To",
      "Interjection",
      "Verb, base form",
      "Verb, past tense",
      "Verb, gerund or present participle",
      "Verb, past participle",
      "Verb, non-3rd person singular present",
      "Verb, 3rd person singular present",
      "Wh-determiner",
      "Wh-pronoun",
      "Wh-adverb"
  ]

  /** The number of members of the enumeration. */
  const TagCount: nat := 28

  /** The tag's value (its __int__ and its __hash__). */
  function Id(t: Tag): (id: nat)
    ensures id < TagCount
  {
    match t
    case CC => 0
    case CD => 1
    case DT => 2
    case IN => 3
    case JJ => 4
    case JJR => 5
    case JJS => 6
    case MD => 7
    case NN => 8
    case NNS => 9
    case NNP => 10
    case NNPS => 11
    case PRP => 12
    case RB => 13
    case RBR => 14
    case RBS => 15
    case RP => 16
    case TO => 17
    case UH => 18
    case VB => 19
    case VBD => 20
    case VBG => 21
    case VBN => 22
    case VBP => 23
    case VBZ => 24
    case WDT => 25
    case WP => 26
    case WRB => 27
  }

  /** The tag's member name (its __str__). */
  function Name(t: Tag): string
  {
    match t
    case CC => "CC"
    case CD => "CD"
    case DT => "DT"
    case IN => "IN"
    case JJ => "JJ"
    case JJR => "JJR"
    case JJS => "JJS"
    case MD => "MD"
    case NN => "NN"
    case NNS => "NNS"
    case NNP => "NNP"
    case NNPS => "NNPS"
    case PRP => "PRP"
    case RB => "RB"
    case RBR => "RBR"
    case RBS => "RBS"
    case RP => "RP"
    case TO => "TO"
    case UH => "UH"
    case VB => "VB"
    case VBD => "VBD"
    case VBG => "VBG"
    case VBN => "VBN"
    case VBP => "VBP"
    case VBZ => "VBZ"
    case WDT => "WDT"
    case WP => "WP"
    case WRB => "WRB"
  }

  /** The member whose value is id (POSTag(id)), found by halving the range of values. */
  function TagOf(id: nat): (t: Tag)
    requires id < TagCount
    ensures Id(t) == id
  {
    if id < 14 then
      if id < 7 then
        if id < 3 then
          if id < 1 then
            CC
          else
            if id < 2 then
              CD
            else
              DT
        else
          if id < 5 then
            if id < 4 then
              IN
            else
              JJ
          else
            if id < 6 then
              JJR
            else
              JJS
      else
        if id < 10 then
          if id < 8 then
            MD
          else
            if id < 9 then
              NN
            else
              NNS
        else
          if id < 12 then
            if id < 11 then
              NNP
            else
              NNPS
          else
            if id < 13 then
              PRP
            else
              RB
    else
      if id < 21 then
        if id < 17 then
          if id < 15 then
            RBR
          else
            if id < 16 then
              RBS
            else
              RP
        else
          if id < 19 then
            if id < 18 then
              TO
            else
              UH
          else
            if id < 20 then
              VB
            else
              VBD
      else
        if id < 24 then
          if id < 22 then
            VBG
          else
            if id < 23 then
              VBN
            else
              VBP
        else
          if id < 26 then
            if id < 25 then
              VBZ
            else
              WDT
          else
            if id < 27 then
              WP
            else
              WRB
  }

  /** Every tag, in id order (iteration order of the enumeration). */
  function AllTags(): (ts: seq<Tag>)
    ensures |ts| == TagCount
  {
    seq(TagCount, i requires 0 <= i < TagCount => TagOf(i))
  }

  /** The tag names in id order; this is also what get_all_tags returns. */
  function TagNames(): (names: seq<string>)
    ensures |names| == TagCount
  {
    seq(TagCount, i requires 0 <= i < TagCount => Name(TagOf(i)))
  }

  /** get_total_tags: the number of members, which is also the number of descriptions. */
  function TotalTags(): (n: nat)
    ensures n == |AllTags()| == |TagNames()| == |Descriptions|
  {
    TagCount
  }

  /** POSTag(id): the member with this value, ValueError for any other integer. */
  function FromId(id: int): (r: Result<Tag>)
    ensures r.Ok? <==> 0 <= id < TotalTags()
    ensures r.Ok? ==> Id(r.value) == id
    ensures r.Err? ==> r.error == ValueError
  {
    if 0 <= id < TagCount then Ok(TagOf(id)) else Err(ValueError)
  }

  /** from_tag_name: looks the name up among the members, case-sensitively. */
  function FromTagName(name: string): (r: Result<Tag>)
    ensures r.Ok? ==> Name(r.value) == name
    ensures r.Err? ==> r.error == ValueError
  {
    match name
    case "CC" => Ok(CC)
    case "CD" => Ok(CD)
    case "DT" => Ok(DT)
    case "IN" => Ok(IN)
    case "JJ" => Ok(JJ)
    case "JJR" => Ok(JJR)
    case "JJS" => Ok(JJS)
    case "MD" => Ok(MD)
    case "NN" => Ok(NN)
    case "NNS" => Ok(NNS)
    case "NNP" => Ok(NNP)
    case "NNPS" => Ok(NNPS)
    case "PRP" => Ok(PRP)
    case "RB" => Ok(RB)
    case "RBR" => Ok(RBR)
    case "RBS" => Ok(RBS)
    case "RP" => Ok(RP)
    case "TO" => Ok(TO)
    case "UH" => Ok(UH)
    case "VB" => Ok(VB)
    case "VBD" => Ok(VBD)
    case "VBG" => Ok(VBG)
    case "VBN" => Ok(VBN)
    case "VBP" => Ok(VBP)
    case "VBZ" => Ok(VBZ)
    case "WDT" => Ok(WDT)
    case "WP" => Ok(WP)
    case "WRB" => Ok(WRB)
    case _ => Err(ValueError)
  }

  /** get_id_by_tag_name. */
  function GetIdByTagName(name: string): (r: Result<int>)
    ensures r.Ok? <==> FromTagName(name).Ok?
    ensures r.Ok? ==> 0 <= r.value < TotalTags() && TagNames()[r.value] == name
    ensures r.Err? ==> r.error == ValueError
  {
    match FromTagName(name)
    case Ok(t) => NameAlignedWithId(t); Ok(Id(t))
    case Err(e) => Err(e)
  }

  /** get_tag_name_by_id. Its guard admits id == TotalTags(), but POSTag(28) then raises
      ValueError itself, so the outcome is an error for every id outside 0..27. */
  function GetTagNameById(id: int): (r: Result<string>)
    ensures r.Ok? <==> 0 <= id < TotalTags()
    ensures r.Ok? ==> r.value == TagNames()[id] && GetIdByTagName(r.value) == Ok(id)
    ensures r.Err? ==> r.error == ValueError
  {
    if 0 <= id <= TotalTags() then
      match FromId(id)
      case Ok(t) => NameRoundTrip(t); NameAlignedWithId(t); Ok(Name(t))
      case Err(e) => Err(e)
    else
      Err(ValueError)
  }

  /** get_description: the tag's entry in Descriptions, a non-empty text. */
  function Description(t: Tag): (d: string)
    ensures |d| > 0
  {
    Descriptions[Id(t)]
  }

  /** get_description_by_tag_name. */
  function DescriptionByTagName(name: string): (r: Result<string>)
    ensures r.Ok? <==> FromTagName(name).Ok?
    ensures r.Ok? ==> r.value == Description(FromTagName(name).value)
    ensures r.Err? ==> r.error == ValueError
  {
    match GetIdByTagName(name)
    case Ok(id) => Ok(Descriptions[id])
    case Err(e) => Err(e)
  }

  /** get_description_by_tag_id. */
  function DescriptionByTagId(id: int): (r: Result<string>)
    ensures r.Err? <==> id < 0 || id >= TotalTags()
    ensures r.Ok? ==> r.value == Description(FromId(id).value)
    ensures r.Err? ==> r.error == ValueError
  {
    if id < 0 || id >= |Descriptions| then Err(ValueError) else Ok(Descriptions[id])
  }

  /** get_all_tags. */
  function GetAllTags(): (names: seq<string>)
    ensures |names| == TotalTags()
    ensures forall t: Tag :: names[Id(t)] == Name(t)
  {
    NamesAligned(); TagNames()
  }

  /** __hash__ is the id. */
  function Hash(t: Tag): (h: int)
    ensures 0 <= h < TotalTags()
    ensures FromId(h) == Ok(t)
  {
    TagOfId(t); Id(t)
  }

  /** Id and TagOf are inverse: the value determines the member. */
  lemma TagOfId(t: Tag)
    ensures TagOf(Id(t)) == t
  {
  }

  lemma NameAlignedWithId(t: Tag)
    ensures AllTags()[Id(t)] == t
    ensures TagNames()[Id(t)] == Name(t)
  {
    TagOfId(t);
  }

  lemma NamesAligned()
    ensures forall t: Tag :: TagNames()[Id(t)] == Name(t)
  {
    forall t: Tag ensures TagNames()[Id(t)] == Name(t) { NameAlignedWithId(t); }
  }

  /** from_tag_name(str(t)) == t. */
  lemma NameRoundTrip(t: Tag)
    ensures FromTagName(Name(t)) == Ok(t)
  {
  }

  /** get_id_by_tag_name(get_tag_name_by_id(i)) == i for every valid id. */
  lemma IdRoundTrip(id: int)
    requires 0 <= id < TotalTags()
    ensures GetTagNameById(id).Ok? && GetIdByTagName(GetTagNameById(id).value) == Ok(id)
  {
  }

  /** Equality is by value: two tags are equal exactly when their ids are. */
  lemma EqualityByValue(a: Tag, b: Tag)
    ensures a == b <==> Id(a) == Id(b)
  {
    TagOfId(a); TagOfId(b);
  }

  /** The tag a description belongs to, or None for a text that is no tag's description. */
  ghost function TagOfDescription(d: string): Option<Tag>
  {
    match d
    case "Coordinating conjunction" => Some(CC)
    case "Cardinal number" => Some(CD)
    case "Determiner" => Some(DT)
    case "Preposition or subordinating conjunction" => Some(IN)
    case "Adjective" => Some(JJ)
    case "Adjective, comparative" => Some(JJR)
    case "Adjective, superlative" => Some(JJS)
    case "Modal" => Some(MD)
    case "Noun, singular or mass" => Some(NN)
    case "Noun, plural" => Some(NNS)
    case "Proper noun, singular" => Some(NNP)
    case "Proper noun, plural" => Some(NNPS)
    case "Personal/Posessive pronoun" => Some(PRP)
    case "Adverb" => Some(RB)
    case "Adverb, comparative" => Some(RBR)
    case "Adverb, superlative" => Some(RBS)
    case "Particle" => Some(RP)
    case "To" => Some(TO)
    case "Interjection" => Some(UH)
    case "Verb, base form" => Some(VB)
    case "Verb, past tense" => Some(VBD)
    case "Verb, gerund or present participle" => Some(VBG)
    case "Verb, past participle" => Some(VBN)
    case "Verb, non-3rd person singular present" => Some(VBP)
    case "Verb, 3rd person singular present" => Some(VBZ)
    case "Wh-determiner" => Some(WDT)
    case "Wh-pronoun" => Some(WP)
    case "Wh-adverb" => Some(WRB)
    case _ => None
  }

  /** Every tag's description leads back to the tag. */
  lemma DescriptionLeadsBack(t: Tag)
    ensures TagOfDescription(Description(t)) == Some(t)
  {
    match t
    case CC => assert Description(CC) == Descriptions[0];
    case CD => assert Description(CD) == Descriptions[1];
    case DT => assert Description(DT) == Descriptions[2];
    case IN => assert Description(IN) == Descriptions[3];
    case JJ => assert Description(JJ) == Descriptions[4];
    case JJR => assert Description(JJR) == Descriptions[5];
    case JJS => assert Description(JJS) == Descriptions[6];
    case MD => assert Description(MD) == Descriptions[7];
    case NN => assert Description(NN) == Descriptions[8];
    case NNS => assert Description(NNS) == Descriptions[9];
    case NNP => assert Description(NNP) == Descriptions[10];
    case NNPS => assert Description(NNPS) == Descriptions[11];
    case PRP => assert Description(PRP) == Descriptions[12];
    case RB => assert Description(RB) == Descriptions[13];
    case RBR => assert Description(RBR) == Descriptions[14];
    case RBS => assert Description(RBS) == Descriptions[15];
    case RP => assert Description(RP) == Descriptions[16];
    case TO => assert Description(TO) == Descriptions[17];
    case UH => assert Description(UH) == Descriptions[18];
    case VB => assert Description(VB) == Descriptions[19];
    case VBD => assert Description(VBD) == Descriptions[20];
    case VBG => assert Description(VBG) == Descriptions[21];
    case VBN => assert Description(VBN) == Descriptions[22];
    case VBP => assert Description(VBP) == Descriptions[23];
    case VBZ => assert Description(VBZ) == Descriptions[24];
    case WDT => assert Description(WDT) == Descriptions[25];
    case WP => assert Description(WP) == Descriptions[26];
    case WRB => assert Description(WRB) == Descriptions[27];
  }

  /** No two tags share a description. */
  lemma DescriptionIdentifiesTag(t: Tag, u: Tag)
    ensures Description(t) == Description(u) <==> t == u
  {
    DescriptionLeadsBack(t);
    DescriptionLeadsBack(u);
  }

  /** The three ways of getting a description agree. */
  lemma DescriptionsAgree(t: Tag)
    ensures DescriptionByTagId(Id(t)) == Ok(Description(t))
    ensures DescriptionByTagName(Name(t)) == Ok(Description(t))
  {
    NameRoundTrip(t);
  }
}
