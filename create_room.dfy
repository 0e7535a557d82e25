/**
 * Room creation (src/pages/create-room-fragment.tsx): session-code
 * generation, the presentation file list and its selection, and writing the
 * session record before navigating to the presenter page.
 */
module CreateRoom {
  import opened Wrappers
  import RoomData

  /** The code alphabet: no 0, 1, I or O. */
  const Alphabet := "ABCDEFGHJKLMNPQRSTUVWXYZ23456789"
  const CodeLength := 6
  const PresentPrefix := "/present/"

  predicate IsSessionCode(code: string) {
    |code| == CodeLength && forall k :: 0 <= k < |code| ==> code[k] in Alphabet
  }

  /** A value `Math.random()` can return. */
  predicate IsRandom(r: real) {
    0.0 <= r < 1.0
  }

  /** `Math.floor(r * chars.length)`: always an index into the alphabet. */
  function DrawIndex(r: real): (i: int)
    requires IsRandom(r)
    ensures 0 <= i < |Alphabet|
  {
    (r * (|Alphabet| as real)).Floor
  }

  /** `s.charAt(i)`: the one-character string at `i`, or "" out of range. */
  function CharAt(s: string, i: int): string {
    if 0 <= i < |s| then [s[i]] else ""
  }

  /** Not one of the easily confused characters. */
  predicate Unambiguous(c: char) {
    c != '0' && c != '1' && c != 'I' && c != 'O'
  }

  /** `charAt` at a drawn index is never the empty string: it is the alphabet letter there. */
  lemma DrawnCharacter(r: real)
    requires IsRandom(r)
    ensures CharAt(Alphabet, DrawIndex(r)) == [Alphabet[DrawIndex(r)]]
    ensures |CharAt(Alphabet, DrawIndex(r))| == 1
  {
  }

  lemma AlphabetFacts()
    ensures |Alphabet| == 32
    ensures forall k :: 0 <= k < |Alphabet| ==> Unambiguous(Alphabet[k])
  {
  }

  /** A session code contains none of 0, 1, I and O. */
  lemma SessionCodeIsUnambiguous(code: string)
    requires IsSessionCode(code)
    ensures forall k :: 0 <= k < |code| ==> Unambiguous(code[k])
  {
    AlphabetFacts();
    forall k | 0 <= k < |code| ensures Unambiguous(code[k]) {
      var j :| 0 <= j < |Alphabet| && Alphabet[j] == code[k];
    }
  }

  /** The draw `j / 32` selects index `j`. */
  lemma DrawOfIndex(j: int)
    requires 0 <= j < |Alphabet|
    ensures IsRandom(j as real / 32.0) && DrawIndex(j as real / 32.0) == j
  {
    assert |Alphabet| == 32;
    var r := j as real / 32.0;
    assert r * 32.0 == j as real;
  }

  /**
   * `generateSessionCode`, with the six `Math.random()` draws given in order:
   * six characters, each the alphabet letter its draw selects.
   */
  method GenerateSessionCode(random: seq<real>) returns (code: string)
    requires |random| == CodeLength
    requires forall k :: 0 <= k < |random| ==> IsRandom(random[k])
    ensures IsSessionCode(code)
    ensures forall k :: 0 <= k < CodeLength ==> code[k] == Alphabet[DrawIndex(random[k])]
  {
    code := "";
    for i := 0 to CodeLength
      invariant |code| == i
      invariant forall k :: 0 <= k < i ==> code[k] == Alphabet[DrawIndex(random[k])]
    {
      code := code + CharAt(Alphabet, DrawIndex(random[i]));
    }
  }

  /** Each letter of the alphabet is drawn by some value of `Math.random()`. */
  lemma DrawOfLetter(c: char) returns (r: real)
    requires c in Alphabet
    ensures IsRandom(r) && Alphabet[DrawIndex(r)] == c
  {
    var j :| 0 <= j < |Alphabet| && Alphabet[j] == c;
    DrawOfIndex(j);
    r := j as real / 32.0;
  }

  /** Every session code is produced by some six draws: index k is drawn by k/32. */
  lemma {:induction false} EveryCodeIsDrawable(code: string) returns (random: seq<real>)
    requires IsSessionCode(code)
    ensures |random| == CodeLength
    ensures forall k :: 0 <= k < CodeLength ==> IsRandom(random[k]) && Alphabet[DrawIndex(random[k])] == code[k]
  {
    random := [];
    for i := 0 to CodeLength
      invariant |random| == i
      invariant forall k :: 0 <= k < i ==> IsRandom(random[k]) && Alphabet[DrawIndex(random[k])] == code[k]
    {
      var r := DrawOfLetter(code[i]);
      random := random + [r];
    }
  }

  /** An object of the storage listing. */
  datatype ListedObject = ListedObject(id: string, name: string, createdAt: Option<string>)

  /** The list call's outcome; a thrown exception is an error too. */
  datatype Listing = ListError | Listed(data: seq<ListedObject>)

  datatype UploadedFile = UploadedFile(id: string, name: string, url: string, createdAt: string)

  predicate EndsWith(s: string, suffix: string) {
    |suffix| <= |s| && s[|s| - |suffix|..] == suffix
  }

  /** The case-sensitive `.ppt`/`.pptx` suffix test. */
  predicate IsPresentation(name: string) {
    EndsWith(name, ".ppt") || EndsWith(name, ".pptx")
  }

  lemma SuffixTestIsCaseSensitive()
    ensures IsPresentation("deck.ppt") && IsPresentation("deck.pptx")
    ensures !IsPresentation("deck.PPTX") && !IsPresentation("deck.pdf") && !IsPresentation("pptx")
  {
    assert "deck.ppt"[4..] == ".ppt";
    assert "deck.pptx"[4..] == ".pptx";
    assert "deck.PPTX"[5..][1] != ".ppt"[1];
    assert "deck.PPTX"[4..][1] != ".pptx"[1];
    assert "deck.pdf"[4..][2] != ".ppt"[2];
    assert "deck.pdf"[3..][0] != ".pptx"[0];
    assert "pptx"[0..][0] != ".ppt"[0];
  }

  /** The listing filtered to presentations, in listing order. */
  function Presentations(data: seq<ListedObject>): (r: seq<ListedObject>)
    ensures forall o :: o in r <==> o in data && IsPresentation(o.name)
    ensures forall o :: multiset(r)[o] == if IsPresentation(o.name) then multiset(data)[o] else 0
    ensures |r| <= |data|
    decreases |data|
  {
    if data == [] then []
    else
      assert data == [data[0]] + data[1..];
      if IsPresentation(data[0].name) then [data[0]] + Presentations(data[1..])
      else Presentations(data[1..])
  }

  /** Filtering keeps listing order: the filter of a concatenation is the concatenation of the filters. */
  lemma {:induction false} PresentationsAppend(a: seq<ListedObject>, b: seq<ListedObject>)
    ensures Presentations(a + b) == Presentations(a) + Presentations(b)
    decreases |a|
  {
    if a == [] {
      assert a + b == b;
    } else {
      assert (a + b)[0] == a[0];
      assert (a + b)[1..] == a[1..] + b;
      PresentationsAppend(a[1..], b);
    }
  }

  /** One listed object as a file entry; a missing or empty timestamp becomes `now`. */
  function ToUploaded(o: ListedObject, userId: string, publicUrl: string -> string, now: string): UploadedFile {
    UploadedFile(o.id, o.name, publicUrl(userId + "/" + o.name),
                 if o.createdAt.Some? && o.createdAt.value != "" then o.createdAt.value else now)
  }

  /**
   * The file list `loadFiles` stores: empty on an error, otherwise one entry
   * per presentation of the listing, in order.
   */
  function FileList(listing: Listing, userId: string, publicUrl: string -> string, now: string): (files: seq<UploadedFile>)
    ensures listing.ListError? ==> files == []
    ensures forall f :: f in files ==> IsPresentation(f.name)
    ensures listing.Listed? ==> |files| == |Presentations(listing.data)|
    ensures listing.Listed? ==> forall k :: 0 <= k < |files| ==>
      files[k] == ToUploaded(Presentations(listing.data)[k], userId, publicUrl, now)
  {
    match listing
    case ListError => []
    case Listed(data) =>
      var ps := Presentations(data);
      seq(|ps|, k requires 0 <= k < |ps| => ToUploaded(ps[k], userId, publicUrl, now))
  }

  predicate IdAbsentBefore(files: seq<UploadedFile>, id: string, k: int)
    requires 0 <= k <= |files|
  {
    forall j :: 0 <= j < k ==> files[j].id != id
  }

  /** `files.find(f => f.id === id)`: the first file with that id, or null. */
  function FindById(files: seq<UploadedFile>, id: string): (r: Option<UploadedFile>)
    ensures r.None? <==> forall f :: f in files ==> f.id != id
    ensures r.Some? ==> r.value in files && r.value.id == id
    ensures forall k :: 0 <= k < |files| && files[k].id == id && IdAbsentBefore(files, id, k) ==> r == Some(files[k])
    decreases |files|
  {
    if files == [] then None
    else if files[0].id == id then Some(files[0])
    else
      var r := FindById(files[1..], id);
      assert forall k :: 1 <= k < |files| ==> files[1..][k - 1] == files[k];
      assert forall k :: 1 <= k <= |files| && IdAbsentBefore(files, id, k) ==> IdAbsentBefore(files[1..], id, k - 1);
      assert files == [files[0]] + files[1..];
      r
  }

  /** The record `handleProceed` stores; an empty url or name is stored as null, like a missing one. */
  function RoomFor(code: string, selected: Option<UploadedFile>): RoomData.Room {
    RoomData.Room(code, true,
      if selected.Some? && selected.value.url != "" then Some(selected.value.url) else None,
      if selected.Some? && selected.value.name != "" then Some(selected.value.name) else None)
  }

  /**
   * The stored record is the host's record for the code, with the selected
   * file's url and name, or nulls when nothing is selected.
   */
  lemma RoomForFields(code: string, selected: Option<UploadedFile>)
    ensures RoomFor(code, selected).code == code && RoomFor(code, selected).isHost
    ensures selected.None? ==> RoomFor(code, selected).fileUrl == None && RoomFor(code, selected).fileName == None
    ensures selected.Some? && selected.value.url != "" ==> RoomFor(code, selected).fileUrl == Some(selected.value.url)
    ensures selected.Some? && selected.value.name != "" ==> RoomFor(code, selected).fileName == Some(selected.value.name)
    ensures selected.Some? && selected.value.url == "" ==> RoomFor(code, selected).fileUrl == None
    ensures selected.Some? && selected.value.name == "" ==> RoomFor(code, selected).fileName == None
  {
  }

  /** The create-room page's state. */
  class CreateRoomPage {
    var roomCode: string
    var files: seq<UploadedFile>
    var loadingFiles: bool
    var selectedFile: Option<UploadedFile>

    constructor (random: seq<real>)
      requires |random| == CodeLength
      requires forall k :: 0 <= k < |random| ==> IsRandom(random[k])
      ensures IsSessionCode(roomCode)
      ensures forall k :: 0 <= k < CodeLength ==> roomCode[k] == Alphabet[DrawIndex(random[k])]
      ensures files == [] && loadingFiles && selectedFile == None
    {
      var code := GenerateSessionCode(random);
      roomCode := code;
      files, loadingFiles, selectedFile := [], true, None;
    }

    /** `loadFiles`: replace the list, end loading; code and selection stay. */
    method LoadFiles(listing: Listing, userId: string, publicUrl: string -> string, now: string)
      modifies this
      ensures files == FileList(listing, userId, publicUrl, now)
      ensures !loadingFiles
      ensures roomCode == old(roomCode) && selectedFile == old(selectedFile)
    {
      files := FileList(listing, userId, publicUrl, now);
      loadingFiles := false;
    }

    /** The select box's change handler. */
    method SelectById(id: string)
      modifies this
      ensures selectedFile == FindById(files, id)
      ensures roomCode == old(roomCode) && files == old(files) && loadingFiles == old(loadingFiles)
    {
      selectedFile := FindById(files, id);
    }

    /** `regenerateCode`: a fresh code, nothing else changes. */
    method RegenerateCode(random: seq<real>)
      requires |random| == CodeLength
      requires forall k :: 0 <= k < |random| ==> IsRandom(random[k])
      modifies this
      ensures IsSessionCode(roomCode)
      ensures forall k :: 0 <= k < CodeLength ==> roomCode[k] == Alphabet[DrawIndex(random[k])]
      ensures files == old(files) && loadingFiles == old(loadingFiles) && selectedFile == old(selectedFile)
    {
      roomCode := GenerateSessionCode(random);
    }

    /**
     * `handleProceed`: replace whatever the slot held by the host record for
     * this code and the selected file, and navigate to this code's presenter
     * page.
     */
    method HandleProceed(slot: RoomData.RoomSlot) returns (target: string)
      modifies slot
      ensures slot.value == RoomData.Json(RoomFor(roomCode, selectedFile))
      ensures target == PresentPrefix + roomCode
    {
      slot.value := RoomData.Json(RoomFor(roomCode, selectedFile));
      target := PresentPrefix + roomCode;
    }
  }

  /**
   * Round trip: whatever the slot held before, after proceeding the
   * presenter page reads back a host record whose code is the one in the
   * navigation target, a valid session code, with the selected file's url
   * and name, each stored as null when it is empty or nothing is selected.
   */
  method ProceedThenRead(random: seq<real>, earlier: RoomData.Stored, selected: Option<UploadedFile>)
    returns (target: string, read: Option<RoomData.Room>, redirect: Option<string>)
    requires |random| == CodeLength
    requires forall k :: 0 <= k < |random| ==> IsRandom(random[k])
    ensures read.Some? && redirect == None
    ensures read.value.isHost && IsSessionCode(read.value.code)
    ensures target == PresentPrefix + read.value.code
    ensures read.value == RoomFor(read.value.code, selected)
    ensures selected.Some? && selected.value.url != "" ==> read.value.fileUrl == Some(selected.value.url)
    ensures selected.Some? && selected.value.name != "" ==> read.value.fileName == Some(selected.value.name)
    ensures selected.Some? && selected.value.url == "" ==> read.value.fileUrl == None
    ensures selected.Some? && selected.value.name == "" ==> read.value.fileName == None
    ensures selected.None? ==> read.value.fileUrl == None && read.value.fileName == None
  {
    var page := new CreateRoomPage(random);
    page.selectedFile := selected;
    var slot := new RoomData.RoomSlot(earlier);
    target := page.HandleProceed(slot);
    var loading;
    read, redirect, loading := RoomData.ReadRoom(slot);
  }
}
