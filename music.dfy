/** get_music_by_time over the `peloton_music_sets` scan. */
module Music {
  import opened Wrappers
  import opened Dynamo
  import Schema

  /** `i.get('created_at').get('S') == ride_time`: an exact text match, never parsed. */
  predicate SetAt(r: Record, rideTime: string): (b: bool)
    requires Schema.CreatedAt in r
    ensures b <==> r[Schema.CreatedAt].S? && r[Schema.CreatedAt].s == rideTime
  {
    GetS(r[Schema.CreatedAt]) == Some(rideTime)
  }

  /** Every scanned set carries `created_at`; otherwise the comprehension raises. */
  predicate HasCreatedAt(items: seq<Record>): (b: bool)
    ensures b <==> forall i :: 0 <= i < |items| ==> Schema.CreatedAt in items[i]
  {
    forall r :: r in items ==> Schema.CreatedAt in r
  }

  /** The comprehension `music`: the sets recorded at `rideTime`, in scan order. */
  function SetsAt(items: seq<Record>, rideTime: string): (music: seq<Record>)
    requires HasCreatedAt(items)
    ensures forall r :: r in music <==> r in items && SetAt(r, rideTime)
  {
    if items == [] then []
    else
      (if SetAt(items[0], rideTime) then [items[0]] else []) + SetsAt(items[1..], rideTime)
  }

  /** The comprehension keeps scan order: matching a concatenation concatenates the matches. */
  lemma {:induction false} SetsAtAppend(a: seq<Record>, b: seq<Record>, rideTime: string)
    requires HasCreatedAt(a) && HasCreatedAt(b)
    ensures HasCreatedAt(a + b)
    ensures SetsAt(a + b, rideTime) == SetsAt(a, rideTime) + SetsAt(b, rideTime)
  {
    if a == [] {
      assert a + b == b;
    } else {
      var h := if SetAt(a[0], rideTime) then [a[0]] else [];
      assert (a + b)[0] == a[0] && (a + b)[1..] == a[1..] + b;
      assert HasCreatedAt(a[1..]) by {
        assert forall r :: r in a[1..] ==> r in a;
      }
      SetsAtAppend(a[1..], b, rideTime);
      var ma, mb := SetsAt(a[1..], rideTime), SetsAt(b, rideTime);
      assert h + (ma + mb) == (h + ma) + mb;
    }
  }

  /** The position of the first scanned set recorded at `rideTime`. */
  function FirstMatch(items: seq<Record>, rideTime: string): (i: nat)
    requires HasCreatedAt(items)
    requires exists j :: 0 <= j < |items| && SetAt(items[j], rideTime)
    ensures i < |items| && SetAt(items[i], rideTime)
    ensures forall j :: 0 <= j < i ==> !SetAt(items[j], rideTime)
  {
    if SetAt(items[0], rideTime) then 0
    else
      var j :| 0 <= j < |items| && SetAt(items[j], rideTime);
      assert items[1..][j - 1] == items[j];
      1 + FirstMatch(items[1..], rideTime)
  }

  /** Some set matches exactly when `music` is non-empty. */
  lemma SetsAtNonEmpty(items: seq<Record>, rideTime: string)
    requires HasCreatedAt(items)
    ensures SetsAt(items, rideTime) != [] <==> exists j :: 0 <= j < |items| && SetAt(items[j], rideTime)
  {
    var music := SetsAt(items, rideTime);
    if music != [] {
      assert music[0] in music;
      var j :| 0 <= j < |items| && items[j] == music[0];
    }
    if exists j :: 0 <= j < |items| && SetAt(items[j], rideTime) {
      var j :| 0 <= j < |items| && SetAt(items[j], rideTime);
      assert items[j] in items;
    }
  }

  /** When some set matches, `music[0]` is the first match of the scan. */
  lemma {:induction false} SetsAtFirst(items: seq<Record>, rideTime: string)
    requires HasCreatedAt(items)
    requires exists j :: 0 <= j < |items| && SetAt(items[j], rideTime)
    ensures SetsAt(items, rideTime) != []
    ensures SetsAt(items, rideTime)[0] == items[FirstMatch(items, rideTime)]
  {
    if !SetAt(items[0], rideTime) {
      var rest := items[1..];
      assert HasCreatedAt(rest) by {
        assert forall r :: r in rest ==> r in items;
      }
      var j :| 0 <= j < |items| && SetAt(items[j], rideTime);
      assert rest[j - 1] == items[j];
      SetsAtFirst(rest, rideTime);
      assert SetsAt(items, rideTime) == SetsAt(rest, rideTime);
      var f := FirstMatch(rest, rideTime);
      assert rest[f] == items[f + 1];
      assert FirstMatch(items, rideTime) == 1 + f;
    }
  }

  /**
   * Some set matches exactly when `music` is non-empty, and then `music[0]`
   * is the first match of the scan.
   */
  lemma SetsAtHead(items: seq<Record>, rideTime: string)
    requires HasCreatedAt(items)
    ensures SetsAt(items, rideTime) != [] <==> exists j :: 0 <= j < |items| && SetAt(items[j], rideTime)
    ensures SetsAt(items, rideTime) != [] ==> SetsAt(items, rideTime)[0] == items[FirstMatch(items, rideTime)]
  {
    SetsAtNonEmpty(items, rideTime);
    if SetsAt(items, rideTime) != [] {
      SetsAtFirst(items, rideTime);
    }
  }

  /** `[song.get('S') for song in ...]`: one entry per song, None for a non-string song. */
  function Songs(setList: seq<Value>): (titles: seq<Option<string>>)
    ensures |titles| == |setList|
    ensures forall k :: 0 <= k < |setList| ==> titles[k] == GetS(setList[k])
  {
    if setList == [] then [] else [GetS(setList[0])] + Songs(setList[1..])
  }

  /** The first match has a `set_list` holding a list; otherwise iterating it raises. */
  predicate HasSetList(r: Record): (b: bool)
    ensures b <==> Schema.SetList in r && exists songs :: r[Schema.SetList] == L(songs)
  {
    Schema.SetList in r && r[Schema.SetList].L?
  }

  /**
   * get_music_by_time: the song titles, in order, of the first scanned set
   * recorded at exactly `rideTime`. With no match `music[0]` raises, which
   * is the non-empty precondition.
   */
  function Playlist(items: seq<Record>, rideTime: string): (titles: seq<Option<string>>)
    requires HasCreatedAt(items)
    requires SetsAt(items, rideTime) != []
    requires HasSetList(SetsAt(items, rideTime)[0])
    ensures exists j :: 0 <= j < |items| && SetAt(items[j], rideTime)
    ensures var first := items[FirstMatch(items, rideTime)];
            HasSetList(first)
            && |titles| == |first[Schema.SetList].l|
            && forall k :: 0 <= k < |titles| ==> titles[k] == GetS(first[Schema.SetList].l[k])
  {
    SetsAtHead(items, rideTime);
    Songs(SetsAt(items, rideTime)[0][Schema.SetList].l)
  }

  function MusicSet(createdAt: string, songs: seq<string>): Record
  {
    map[Schema.CreatedAt := S(createdAt), Schema.SetList := L(seq(|songs|, k requires 0 <= k < |songs| => S(songs[k])))]
  }

  /** A set recorded at "1700000000" with two songs: the lookup yields both titles, in order. */
  lemma PlaylistOfOneSet()
    ensures Playlist([MusicSet("1700000000", ["Song A", "Song B"])], "1700000000") == [Some("Song A"), Some("Song B")]
  {
    var m := MusicSet("1700000000", ["Song A", "Song B"]);
    assert [m][1..] == [];
    assert SetsAt([m], "1700000000") == [m];
  }

  /** A non-matching key leaves `music` empty, so the lookup raises instead of answering. */
  lemma NoSetAtOtherTime(rideTime: string)
    requires rideTime != "1700000000"
    ensures SetsAt([MusicSet("1700000000", ["Song A", "Song B"])], rideTime) == []
  {
    var m := MusicSet("1700000000", ["Song A", "Song B"]);
    assert [m][1..] == [];
  }
}
