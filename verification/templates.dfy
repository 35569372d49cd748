/**
 * The string helpers of `AdvancedTemplateGenerator`
 * (template_generator.py): collecting the user's photo information,
 * picking the main place and the activity line, choosing a title, and
 * formatting the visited places and the text read from the photos.
 */
module Templates {
  import opened Chars
  import opened Text
  import opened Wrappers

  // ---------------------------------------------------------------------------
  // _extract_user_info

  /** The EXIF fields the generator reads; a missing key is `None`. */
  datatype Exif = Exif(location: Option<string>, datetime: Option<string>)

  /** One photo's analysis: its EXIF data and the text lines read from it. */
  datatype ImageResult = ImageResult(exif: Exif, extractedText: seq<string>)

  /** The dict `_extract_user_info` returns. */
  datatype UserInfo = UserInfo(
    keywords: string,
    locations: seq<string>,
    texts: seq<string>,
    timestamps: seq<string>,
    imageCount: nat)

  /** A truthy `dict.get` result: present and not the empty string. */
  predicate Present(v: Option<string>) {
    v.Some? && v.value != []
  }

  /** The present locations, in photo order. */
  function Locations(results: seq<ImageResult>): seq<string> {
    if results == [] then []
    else
      var last := results[|results| - 1];
      Locations(results[..|results| - 1]) + (if Present(last.exif.location) then [last.exif.location.value] else [])
  }

  /** The present timestamps, in photo order. */
  function Timestamps(results: seq<ImageResult>): seq<string> {
    if results == [] then []
    else
      var last := results[|results| - 1];
      Timestamps(results[..|results| - 1]) + (if Present(last.exif.datetime) then [last.exif.datetime.value] else [])
  }

  /** All text lines of all photos, in photo order. */
  function Texts(results: seq<ImageResult>): seq<string> {
    if results == [] then []
    else Texts(results[..|results| - 1]) + results[|results| - 1].extractedText
  }

  function UserInfoOf(results: seq<ImageResult>, keywords: string): UserInfo {
    UserInfo(keywords, Locations(results), Texts(results), Timestamps(results), |results|)
  }

  /** The loop of `_extract_user_info` (template_generator.py:75-101). */
  method ExtractUserInfo(results: seq<ImageResult>, keywords: string) returns (info: UserInfo)
    ensures info == UserInfoOf(results, keywords)
  {
    var locations: seq<string> := [];
    var texts: seq<string> := [];
    var timestamps: seq<string> := [];
    var i := 0;
    while i < |results|
      invariant 0 <= i <= |results|
      invariant locations == Locations(results[..i])
      invariant texts == Texts(results[..i])
      invariant timestamps == Timestamps(results[..i])
    {
      var result := results[i];
      assert results[..i + 1][..i] == results[..i];
      if Present(result.exif.location) {
        locations := locations + [result.exif.location.value];
      }
      if result.extractedText != [] {
        texts := texts + result.extractedText;
      }
      if Present(result.exif.datetime) {
        timestamps := timestamps + [result.exif.datetime.value];
      }
      i := i + 1;
    }
    assert results[..|results|] == results;
    info := UserInfo(keywords, locations, texts, timestamps, |results|);
  }

  /**
   * Collecting over two batches of photos is collecting over each in turn:
   * every list keeps photo order.
   */
  lemma {:induction false} UserInfoAppend(a: seq<ImageResult>, b: seq<ImageResult>)
    ensures Locations(a + b) == Locations(a) + Locations(b)
    ensures Texts(a + b) == Texts(a) + Texts(b)
    ensures Timestamps(a + b) == Timestamps(a) + Timestamps(b)
    decreases |b|
  {
    if b == [] {
      assert a + b == a;
    } else {
      var init := b[..|b| - 1];
      var r := b[|b| - 1];
      assert (a + b)[..|a + b| - 1] == a + init;
      assert (a + b)[|a + b| - 1] == r;
      UserInfoAppend(a, init);
      var l := if Present(r.exif.location) then [r.exif.location.value] else [];
      var d := if Present(r.exif.datetime) then [r.exif.datetime.value] else [];
      assert Locations(a + b) == (Locations(a) + Locations(init)) + l;
      assert Locations(b) == Locations(init) + l;
      assert Timestamps(a + b) == (Timestamps(a) + Timestamps(init)) + d;
      assert Timestamps(b) == Timestamps(init) + d;
      assert Texts(a + b) == (Texts(a) + Texts(init)) + r.extractedText;
      assert Texts(b) == Texts(init) + r.extractedText;
    }
  }

  /** What one photo contributes. */
  lemma UserInfoSingle(r: ImageResult)
    ensures Locations([r]) == (if Present(r.exif.location) then [r.exif.location.value] else [])
    ensures Timestamps([r]) == (if Present(r.exif.datetime) then [r.exif.datetime.value] else [])
    ensures Texts([r]) == r.extractedText
  {
    assert [r][..0] == [];
  }

  /**
   * The image count is the number of photos. The locations are exactly the
   * present locations of the photos, and the timestamps exactly their present
   * timestamps: at most one per photo, and one per photo when every photo has
   * one. The texts are exactly the photos' text lines.
   */
  lemma UserInfoShape(results: seq<ImageResult>, keywords: string)
    ensures var info := UserInfoOf(results, keywords);
      && info.keywords == keywords
      && info.imageCount == |results|
      && |info.locations| <= |results| && |info.timestamps| <= |results|
      && (forall l :: l in info.locations <==> exists r :: r in results && Present(r.exif.location) && r.exif.location.value == l)
      && (forall d :: d in info.timestamps <==> exists r :: r in results && Present(r.exif.datetime) && r.exif.datetime.value == d)
      && (forall t :: t in info.texts <==> exists r :: r in results && t in r.extractedText)
    ensures (forall r :: r in results ==> Present(r.exif.location)) ==> |Locations(results)| == |results|
    ensures (forall r :: r in results ==> Present(r.exif.datetime)) ==> |Timestamps(results)| == |results|
  {
    LocationsShape(results);
    TimestampsShape(results);
    TextsShape(results);
  }

  lemma {:induction false} LocationsShape(results: seq<ImageResult>)
    ensures |Locations(results)| <= |results|
    ensures forall l :: l in Locations(results) <==> exists r :: r in results && Present(r.exif.location) && r.exif.location.value == l
    ensures (forall r :: r in results ==> Present(r.exif.location)) ==> |Locations(results)| == |results|
  {
    if results != [] {
      var init := results[..|results| - 1];
      var last := results[|results| - 1];
      assert results == init + [last];
      LocationsShape(init);
      assert forall r :: r in results <==> r in init || r == last;
    }
  }

  lemma {:induction false} TimestampsShape(results: seq<ImageResult>)
    ensures |Timestamps(results)| <= |results|
    ensures forall d :: d in Timestamps(results) <==> exists r :: r in results && Present(r.exif.datetime) && r.exif.datetime.value == d
    ensures (forall r :: r in results ==> Present(r.exif.datetime)) ==> |Timestamps(results)| == |results|
  {
    if results != [] {
      var init := results[..|results| - 1];
      var last := results[|results| - 1];
      assert results == init + [last];
      TimestampsShape(init);
      assert forall r :: r in results <==> r in init || r == last;
    }
  }

  lemma {:induction false} TextsShape(results: seq<ImageResult>)
    ensures forall t :: t in Texts(results) <==> exists r :: r in results && t in r.extractedText
  {
    if results != [] {
      var init := results[..|results| - 1];
      var last := results[|results| - 1];
      assert results == init + [last];
      TextsShape(init);
      assert forall r :: r in results <==> r in init || r == last;
    }
  }

  // ---------------------------------------------------------------------------
  // extract_main_location and generate_activities: first name of a list found in the keywords

  /** `names[k]` occurs in `text` and no earlier name does. */
  predicate FoundFirst(names: seq<string>, text: string, k: nat)
    requires k < |names|
  {
    Contains(text, names[k]) && forall j :: 0 <= j < k ==> !Contains(text, names[j])
  }

  /** The index of the first name that occurs in `text`. */
  function FirstContained(names: seq<string>, text: string): (m: Option<nat>)
    ensures m.Some? ==> m.value < |names| && Contains(text, names[m.value])
    ensures m.Some? ==> forall j :: 0 <= j < m.value ==> !Contains(text, names[j])
    ensures m.None? ==> forall j :: 0 <= j < |names| ==> !Contains(text, names[j])
  {
    if names == [] then None
    else if Contains(text, names[0]) then Some(0)
    else match FirstContained(names[1..], text)
      case None => None
      case Some(k) => Some(k + 1)
  }

  const Cities: seq<string> := ["서울", "부산", "대구", "인천", "광주", "대전", "울산", "제주", "경주", "강릉", "전주", "여수"]
  const DefaultPlace := "여행지"

  /** `extract_main_location`. */
  function ExtractMainLocation(keywords: string): string {
    match FirstContained(Cities, keywords)
    case Some(k) => Cities[k]
    case None => DefaultPlace
  }

  /**
   * The main location is the earliest city of the list that occurs in the
   * keywords, and the default exactly when none does.
   */
  lemma MainLocationShape(keywords: string)
    ensures var loc := ExtractMainLocation(keywords);
      (loc == DefaultPlace <==> forall j :: 0 <= j < |Cities| ==> !Contains(keywords, Cities[j]))
    ensures var loc := ExtractMainLocation(keywords);
      loc != DefaultPlace ==> exists k :: 0 <= k < |Cities| && loc == Cities[k] && FoundFirst(Cities, keywords, k)
  {
    assert DefaultPlace !in Cities;
  }

  const ActivityThemes: seq<string> := ["맛집", "데이트", "문화"]
  const ActivityLines: seq<string> := ["맛집 탐방 및 로컬 푸드 체험", "로맨틱한 데이트 코스 체험", "문화 체험 및 관광지 탐방"]
  const DefaultActivity := "다양한 여행 체험 및 관광"

  /** `generate_activities`: the theme checks in the order of the source. */
  function GenerateActivities(keywords: string): string {
    if Contains(keywords, "맛집") then "맛집 탐방 및 로컬 푸드 체험"
    else if Contains(keywords, "데이트") then "로맨틱한 데이트 코스 체험"
    else if Contains(keywords, "문화") then "문화 체험 및 관광지 탐방"
    else DefaultActivity
  }

  /**
   * The activity line is the one of the first theme, in the order food,
   * date, culture, that occurs in the keywords, else the default.
   */
  lemma ActivitiesByPriority(keywords: string)
    ensures GenerateActivities(keywords) ==
      match FirstContained(ActivityThemes, keywords)
      case Some(k) => ActivityLines[k]
      case None => DefaultActivity
  {
    var m := FirstContained(ActivityThemes, keywords);
    assert ActivityThemes[0] == "맛집" && ActivityThemes[1] == "데이트" && ActivityThemes[2] == "문화";
    assert ActivityLines[0] == "맛집 탐방 및 로컬 푸드 체험";
    assert ActivityLines[1] == "로맨틱한 데이트 코스 체험";
    assert ActivityLines[2] == "문화 체험 및 관광지 탐방";
    if m.Some? {
      assert m.value == 0 || m.value == 1 || m.value == 2;
    }
  }

  // ---------------------------------------------------------------------------
  // generate_title

  /** The titles offered for a template type. */
  function Titles(keywords: string, templateType: string): (ts: seq<string>)
    ensures |ts| >= 1
  {
    if templateType == "daytour" then
      ["⭐ " + keywords + " 당일치기 완벽 후기! (코스/비용/꿀팁)",
       "🚗 하루로 충분한 " + keywords + " 완전정복!",
       "💯 " + keywords + " 당일 여행 솔직후기 (사진많음)"]
    else if templateType == "food" then
      ["🍴 " + keywords + " 맛집투어 완주 후기! (가격/메뉴/웨이팅)",
       "😋 먹방러가 추천하는 " + keywords + " 진짜 맛집들",
       "🔥 " + keywords + " 숨은 맛집 발견기 (사진多)"]
    else if templateType == "date" then
      ["💕 " + keywords + " 데이트 완벽 코스 후기! (비용/포토스팟)",
       "😍 커플이 가면 좋은 " + keywords + " 달달 데이트",
       "📸 " + keywords + " 인생샷 데이트 코스 (사진多)"]
    else [keywords + " 여행 후기"]
  }

  const KnownTypes: set<string> := {"daytour", "food", "date"}

  /** `generate_title`; `choice` stands for the value `random.choice` draws. */
  function GenerateTitle(keywords: string, templateType: string, choice: nat): string {
    var ts := Titles(keywords, templateType);
    ts[choice % |ts|]
  }

  /** `x` occurs in `a + x + b`. */
  lemma ContainsMiddle(a: string, x: string, b: string)
    ensures Contains(a + x + b, x)
  {
    var s := a + x + b;
    assert s[|a|..|a| + |x|] == x;
    assert StartsAt(s, |a|, x);
    ContainsAt(s, |a|, x);
  }

  /**
   * The title is one of the titles of its type, every one of them can be
   * drawn, a known type offers three and any other type the plain review
   * title, and every title mentions the keywords.
   */
  lemma TitleShape(keywords: string, templateType: string, choice: nat)
    ensures GenerateTitle(keywords, templateType, choice) in Titles(keywords, templateType)
    ensures forall t :: t in Titles(keywords, templateType) ==>
      exists c: nat :: c < |Titles(keywords, templateType)| && GenerateTitle(keywords, templateType, c) == t
    ensures templateType in KnownTypes ==> |Titles(keywords, templateType)| == 3
    ensures templateType !in KnownTypes ==> Titles(keywords, templateType) == [keywords + " 여행 후기"]
    ensures Contains(GenerateTitle(keywords, templateType, choice), keywords)
  {
    var ts := Titles(keywords, templateType);
    forall t | t in ts
      ensures exists c: nat :: c < |ts| && GenerateTitle(keywords, templateType, c) == t
    {
      var c :| 0 <= c < |ts| && ts[c] == t;
      var n := |ts|;
      assert c % n == c;
      assert GenerateTitle(keywords, templateType, c) == ts[c % n];
    }
    TitlesMention(keywords, templateType);
    assert GenerateTitle(keywords, templateType, choice) == ts[choice % |ts|];
  }

  /** Every candidate title mentions the keywords. */
  lemma TitlesMention(keywords: string, templateType: string)
    ensures forall i :: 0 <= i < |Titles(keywords, templateType)| ==> Contains(Titles(keywords, templateType)[i], keywords)
  {
    if templateType == "daytour" {
      ContainsMiddle("⭐ ", keywords, " 당일치기 완벽 후기! (코스/비용/꿀팁)");
      ContainsMiddle("🚗 하루로 충분한 ", keywords, " 완전정복!");
      ContainsMiddle("💯 ", keywords, " 당일 여행 솔직후기 (사진많음)");
    } else if templateType == "food" {
      ContainsMiddle("🍴 ", keywords, " 맛집투어 완주 후기! (가격/메뉴/웨이팅)");
      ContainsMiddle("😋 먹방러가 추천하는 ", keywords, " 진짜 맛집들");
      ContainsMiddle("🔥 ", keywords, " 숨은 맛집 발견기 (사진多)");
    } else if templateType == "date" {
      ContainsMiddle("💕 ", keywords, " 데이트 완벽 코스 후기! (비용/포토스팟)");
      ContainsMiddle("😍 커플이 가면 좋은 ", keywords, " 달달 데이트");
      ContainsMiddle("📸 ", keywords, " 인생샷 데이트 코스 (사진多)");
    } else {
      ContainsMiddle([], keywords, " 여행 후기");
      assert [] + keywords + " 여행 후기" == keywords + " 여행 후기";
    }
  }

  // ---------------------------------------------------------------------------
  // format_visited_places

  const PinLabel := "📍 "
  const ShopLabel := "🏪 "
  const DefaultPlaces := "📍 다양한 멋진 장소들을 방문했어요!"

  /** `s[:n]`. */
  function Take<T>(s: seq<T>, n: nat): (r: seq<T>)
    ensures |r| <= n && |r| <= |s| && r == s[..|r|]
    ensures |s| <= n ==> r == s
  {
    s[..Min(|s|, n)]
  }

  /** `[f"📍 {loc}" for loc in locations]`. */
  function PinLines(locations: seq<string>): (r: seq<string>)
    ensures |r| == |locations|
    ensures forall k :: 0 <= k < |r| ==> r[k] == PinLabel + locations[k]
  {
    if locations == [] then []
    else PinLines(locations[..|locations| - 1]) + [PinLabel + locations[|locations| - 1]]
  }

  /** `[f"🏪 {text}" for text in texts if len(text) > 2]`. */
  function ShopLines(texts: seq<string>): seq<string> {
    if texts == [] then []
    else
      var t := texts[|texts| - 1];
      ShopLines(texts[..|texts| - 1]) + (if |t| > 2 then [ShopLabel + t] else [])
  }

  /** Every text labelled, long or not. */
  function ShopAll(texts: seq<string>): (r: seq<string>)
    ensures |r| == |texts|
    ensures forall k :: 0 <= k < |r| ==> r[k] == ShopLabel + texts[k]
  {
    if texts == [] then []
    else ShopAll(texts[..|texts| - 1]) + [ShopLabel + texts[|texts| - 1]]
  }

  /** A labelled text is a shop line when the text is longer than two characters. */
  predicate IsShopLine(line: string) {
    |line| > |ShopLabel| + 2
  }

  lemma PinLinesStep(locations: seq<string>, i: nat)
    requires i < |locations|
    ensures PinLines(locations[..i + 1]) == PinLines(locations[..i]) + [PinLabel + locations[i]]
  {
    assert locations[..i + 1][..i] == locations[..i];
  }

  lemma ShopLinesStep(texts: seq<string>, j: nat)
    requires j < |texts|
    ensures ShopLines(texts[..j + 1]) ==
      ShopLines(texts[..j]) + (if |texts[j]| > 2 then [ShopLabel + texts[j]] else [])
  {
    assert texts[..j + 1][..j] == texts[..j];
  }

  /** The lines of the visited-places section. */
  function PlaceLines(locations: seq<string>, texts: seq<string>): seq<string> {
    PinLines(Take(locations, 3)) + ShopLines(Take(texts, 3))
  }

  function VisitedPlaces(locations: seq<string>, texts: seq<string>): string {
    var places := PlaceLines(locations, texts);
    if places == [] then DefaultPlaces else Join(places, "\n")
  }

  /** `format_visited_places` (template_generator.py:339-347). */
  method FormatVisitedPlaces(locations: seq<string>, texts: seq<string>) returns (result: string)
    ensures result == VisitedPlaces(locations, texts)
  {
    var places: seq<string> := [];
    var firstLocations := Take(locations, 3);
    var firstTexts := Take(texts, 3);
    if locations != [] {
      var i := 0;
      while i < |firstLocations|
        invariant 0 <= i <= |firstLocations|
        invariant places == PinLines(firstLocations[..i])
      {
        PinLinesStep(firstLocations, i);
        places := places + [PinLabel + firstLocations[i]];
        i := i + 1;
      }
      assert firstLocations[..|firstLocations|] == firstLocations;
    }
    assert places == PinLines(firstLocations);
    if texts != [] {
      var j := 0;
      while j < |firstTexts|
        invariant 0 <= j <= |firstTexts|
        invariant places == PinLines(firstLocations) + ShopLines(firstTexts[..j])
      {
        var text := firstTexts[j];
        ShopLinesStep(firstTexts, j);
        if |text| > 2 {
          assert PinLines(firstLocations) + ShopLines(firstTexts[..j]) + [ShopLabel + text] ==
            PinLines(firstLocations) + (ShopLines(firstTexts[..j]) + [ShopLabel + text]);
          places := places + [ShopLabel + text];
        }
        j := j + 1;
      }
      assert firstTexts[..|firstTexts|] == firstTexts;
    } else {
      assert places == PinLines(firstLocations) + ShopLines(firstTexts);
    }
    result := if places != [] then Join(places, "\n") else DefaultPlaces;
  }

  /** The kept texts, labelled, in order: exactly those longer than two characters. */
  lemma {:induction false} ShopLinesShape(texts: seq<string>)
    ensures |ShopLines(texts)| <= |texts|
    ensures forall l :: l in ShopLines(texts) <==> exists t :: t in texts && |t| > 2 && l == ShopLabel + t
    ensures IsSubseq(ShopLines(texts), ShopAll(texts))
    ensures forall l :: multiset(ShopLines(texts))[l] == if IsShopLine(l) then multiset(ShopAll(texts))[l] else 0
  {
    ShopLinesMembers(texts);
    ShopLinesSelect(texts);
  }

  lemma {:induction false} ShopLinesMembers(texts: seq<string>)
    ensures |ShopLines(texts)| <= |texts|
    ensures forall l :: l in ShopLines(texts) <==> exists t :: t in texts && |t| > 2 && l == ShopLabel + t
  {
    if texts != [] {
      var init := texts[..|texts| - 1];
      var t := texts[|texts| - 1];
      assert texts == init + [t];
      ShopLinesMembers(init);
      assert forall x :: x in texts <==> x in init || x == t;
    }
  }

  lemma {:induction false} ShopLinesSelect(texts: seq<string>)
    ensures IsSubseq(ShopLines(texts), ShopAll(texts))
    ensures forall l :: multiset(ShopLines(texts))[l] == if IsShopLine(l) then multiset(ShopAll(texts))[l] else 0
  {
    if texts != [] {
      var init := texts[..|texts| - 1];
      var line := ShopLabel + texts[|texts| - 1];
      ShopLinesSelect(init);
      assert ShopLines(texts) == ShopLines(init) + (if IsShopLine(line) then [line] else []);
      FilterSnoc(ShopLines(init), ShopAll(init), line, IsShopLine);
      CountSnoc(ShopLines(init), ShopAll(init), line, IsShopLine);
    }
  }

  /**
   * At most three pin lines, one per leading location, then at most three
   * shop lines for the leading texts longer than two characters; the
   * default exactly when there are no such lines.
   */
  lemma VisitedPlacesShape(locations: seq<string>, texts: seq<string>)
    ensures var pins := PinLines(Take(locations, 3));
      && |pins| == Min(|locations|, 3)
      && forall k :: 0 <= k < |pins| ==> pins[k] == PinLabel + locations[k]
    ensures var shops := ShopLines(Take(texts, 3));
      && |shops| <= 3
      && (forall l :: l in shops <==> exists k :: 0 <= k < Min(|texts|, 3) && |texts[k]| > 2 && l == ShopLabel + texts[k])
      && IsSubseq(shops, ShopAll(Take(texts, 3)))
      && forall l :: multiset(shops)[l] == if IsShopLine(l) then multiset(ShopAll(Take(texts, 3)))[l] else 0
    ensures PlaceLines(locations, texts) == [] <==>
      locations == [] && forall k :: 0 <= k < Min(|texts|, 3) ==> |texts[k]| <= 2
    ensures PlaceLines(locations, texts) == [] ==> VisitedPlaces(locations, texts) == DefaultPlaces
  {
    var first := Take(texts, 3);
    var shops := ShopLines(first);
    ShopLinesSelect(first);
    assert forall l :: l in shops <==> exists k :: 0 <= k < Min(|texts|, 3) && |texts[k]| > 2 && l == ShopLabel + texts[k] by {
      ShopLinesMembers(first);
      assert forall t :: t in first <==> exists k :: 0 <= k < Min(|texts|, 3) && t == texts[k];
    }
    assert |shops| <= 3 by {
      ShopLinesMembers(first);
    }
    if shops != [] {
      assert shops[0] in shops;
    }
    if exists k :: 0 <= k < Min(|texts|, 3) && |texts[k]| > 2 {
      var k :| 0 <= k < Min(|texts|, 3) && |texts[k]| > 2;
      assert ShopLabel + texts[k] in shops;
    }
  }

  // ---------------------------------------------------------------------------
  // format_extracted_texts

  const SparkleLabel := "✨ "
  const NoTexts := "📷 사진 속 다양한 순간들이 추억으로 남았어요!"
  const NoReadableTexts := "📷 특별한 순간들을 카메라에 담았어요!"

  /** A labelled stripped text is a sparkle line when the stripped text is longer than one character. */
  predicate IsSparkleLine(line: string) {
    |line| > |SparkleLabel| + 1
  }

  /** `f"✨ {text.strip()}"` for the texts whose stripped form is longer than one character. */
  function SparkleLines(texts: seq<string>): seq<string> {
    if texts == [] then []
    else
      var t := Strip(texts[|texts| - 1]);
      SparkleLines(texts[..|texts| - 1]) + (if |t| > 1 then [SparkleLabel + t] else [])
  }

  lemma SparkleLinesStep(texts: seq<string>, i: nat)
    requires i < |texts|
    ensures SparkleLines(texts[..i + 1]) ==
      SparkleLines(texts[..i]) + (if |Strip(texts[i])| > 1 then [SparkleLabel + Strip(texts[i])] else [])
  {
    assert texts[..i + 1][..i] == texts[..i];
  }

  function ExtractedTexts(texts: seq<string>): string {
    if texts == [] then NoTexts
    else
      var formatted := SparkleLines(Take(texts, 5));
      if formatted == [] then NoReadableTexts else Join(formatted, "\n")
  }

  /** `format_extracted_texts` (template_generator.py:349-359). */
  method FormatExtractedTexts(texts: seq<string>) returns (result: string)
    ensures result == ExtractedTexts(texts)
  {
    if texts == [] {
      return NoTexts;
    }
    var formatted: seq<string> := [];
    var first := Take(texts, 5);
    var i := 0;
    while i < |first|
      invariant 0 <= i <= |first|
      invariant formatted == SparkleLines(first[..i])
    {
      var text := Strip(first[i]);
      SparkleLinesStep(first, i);
      if |text| > 1 {
        formatted := formatted + [SparkleLabel + text];
      }
      i := i + 1;
    }
    assert first[..|first|] == first;
    result := if formatted != [] then Join(formatted, "\n") else NoReadableTexts;
  }

  /** The sparkle lines are the stripped readable texts, labelled: exactly those. */
  lemma {:induction false} SparkleLinesShape(texts: seq<string>)
    ensures |SparkleLines(texts)| <= |texts|
    ensures forall l :: l in SparkleLines(texts) <==> exists t :: t in texts && |Strip(t)| > 1 && l == SparkleLabel + Strip(t)
    ensures forall l :: multiset(SparkleLines(texts))[l] == if IsSparkleLine(l) then multiset(SparkleAll(texts))[l] else 0
  {
    SparkleLinesMembers(texts);
    SparkleLinesCount(texts);
  }

  lemma {:induction false} SparkleLinesMembers(texts: seq<string>)
    ensures |SparkleLines(texts)| <= |texts|
    ensures forall l :: l in SparkleLines(texts) <==> exists t :: t in texts && |Strip(t)| > 1 && l == SparkleLabel + Strip(t)
  {
    if texts != [] {
      var init := texts[..|texts| - 1];
      var t := texts[|texts| - 1];
      assert texts == init + [t];
      SparkleLinesMembers(init);
      assert forall x :: x in texts <==> x in init || x == t;
    }
  }

  lemma {:induction false} SparkleLinesCount(texts: seq<string>)
    ensures forall l :: multiset(SparkleLines(texts))[l] == if IsSparkleLine(l) then multiset(SparkleAll(texts))[l] else 0
  {
    if texts != [] {
      var init := texts[..|texts| - 1];
      var line := SparkleLabel + Strip(texts[|texts| - 1]);
      SparkleLinesCount(init);
      assert SparkleLines(texts) == SparkleLines(init) + (if IsSparkleLine(line) then [line] else []);
      CountSnoc(SparkleLines(init), SparkleAll(init), line, IsSparkleLine);
    }
  }

  /** Every text labelled, readable or not. */
  function SparkleAll(texts: seq<string>): (r: seq<string>)
    ensures |r| == |texts|
    ensures forall k :: 0 <= k < |r| ==> r[k] == SparkleLabel + Strip(texts[k])
  {
    if texts == [] then []
    else SparkleAll(texts[..|texts| - 1]) + [SparkleLabel + Strip(texts[|texts| - 1])]
  }

  /** The sparkle lines keep the order of their texts. */
  lemma {:induction false} SparkleLinesInOrder(texts: seq<string>)
    ensures IsSubseq(SparkleLines(texts), SparkleAll(texts))
  {
    if texts != [] {
      var init := texts[..|texts| - 1];
      var x := SparkleLabel + Strip(texts[|texts| - 1]);
      SparkleLinesInOrder(init);
      assert SparkleAll(texts) == SparkleAll(init) + [x];
      SubseqAppend(SparkleLines(init), SparkleAll(init), x);
      if |Strip(texts[|texts| - 1])| > 1 {
        assert SparkleLines(texts) == SparkleLines(init) + [x];
      } else {
        assert SparkleLines(texts) == SparkleLines(init);
      }
    }
  }

  /**
   * No texts give the first default; otherwise at most five lines, drawn in
   * order from the first five texts, and the second default exactly when
   * none of those is readable.
   */
  lemma ExtractedTextsShape(texts: seq<string>)
    ensures texts == [] ==> ExtractedTexts(texts) == NoTexts
    ensures texts != [] ==>
      (ExtractedTexts(texts) == NoReadableTexts <==> forall k :: 0 <= k < Min(|texts|, 5) ==> |Strip(texts[k])| <= 1)
  {
    var lines := SparkleLines(Take(texts, 5));
    NoLinesIffUnreadable(texts);
    if lines != [] {
      FirstTextsLines(texts);
      assert lines[0] in lines;
      JoinSparkle(lines);
    }
  }

  /** There are no lines exactly when none of the first five texts is readable. */
  lemma NoLinesIffUnreadable(texts: seq<string>)
    ensures SparkleLines(Take(texts, 5)) == [] <==> forall k :: 0 <= k < Min(|texts|, 5) ==> |Strip(texts[k])| <= 1
  {
    var first := Take(texts, 5);
    NoSparkleLines(first);
    assert |first| == Min(|texts|, 5);
    assert forall k :: 0 <= k < |first| ==> first[k] == texts[k];
  }

  lemma {:induction false} NoSparkleLines(texts: seq<string>)
    ensures SparkleLines(texts) == [] <==> forall k :: 0 <= k < |texts| ==> |Strip(texts[k])| <= 1
  {
    if texts != [] {
      var init := texts[..|texts| - 1];
      var t := Strip(texts[|texts| - 1]);
      NoSparkleLines(init);
      UnreadableSnoc(texts, init);
      assert SparkleLines(texts) == SparkleLines(init) + (if |t| > 1 then [SparkleLabel + t] else []);
    }
  }

  /** Every text is unreadable exactly when all but the last are and the last is. */
  lemma UnreadableSnoc(texts: seq<string>, init: seq<string>)
    requires texts != [] && init == texts[..|texts| - 1]
    ensures (forall k :: 0 <= k < |texts| ==> |Strip(texts[k])| <= 1) <==>
      (forall k :: 0 <= k < |init| ==> |Strip(init[k])| <= 1) && |Strip(texts[|texts| - 1])| <= 1
  {
    assert forall k :: 0 <= k < |init| ==> init[k] == texts[k];
  }

  /**
   * The lines come from the first five texts: the labelled readable ones,
   * in order, with every copy.
   */
  lemma FirstTextsLines(texts: seq<string>)
    ensures |SparkleLines(Take(texts, 5))| <= 5
    ensures forall l :: l in SparkleLines(Take(texts, 5)) <==>
      exists k :: 0 <= k < Min(|texts|, 5) && |Strip(texts[k])| > 1 && l == SparkleLabel + Strip(texts[k])
    ensures IsSubseq(SparkleLines(Take(texts, 5)), SparkleAll(Take(texts, 5)))
    ensures forall l :: multiset(SparkleLines(Take(texts, 5)))[l] == (if IsSparkleLine(l) then multiset(SparkleAll(Take(texts, 5)))[l] else 0)
  {
    var first := Take(texts, 5);
    SparkleLinesShape(first);
    SparkleLinesInOrder(first);
    assert forall t :: t in first <==> exists k :: 0 <= k < Min(|texts|, 5) && t == texts[k];
  }

  /** A join whose first line is a sparkle line never equals the second default. */
  lemma JoinSparkle(lines: seq<string>)
    requires lines != [] && exists t :: lines[0] == SparkleLabel + t
    ensures Join(lines, "\n") != NoReadableTexts
  {
    var t :| lines[0] == SparkleLabel + t;
    assert lines[0][0] == '✨';
    assert Join(lines, "\n")[0] == '✨';
    assert NoReadableTexts[0] == '📷';
  }
}
