/** The landing page of public/js/landing.js: turning what the visitor typed or
    pasted into a meeting id, and the address of the meeting page. */
module Landing {
  import opened Text

  /** The path and query prefix of a meeting page address. */
  const RoomPath := "/room.html?room="

  /** The separator of a pasted link's path segments. */
  const Slash := '/'

  /** `parts.join(sep)`. */
  function Join(parts: seq<string>, sep: char): string
    decreases |parts|
  {
    if parts == [] then []
    else if |parts| == 1 then parts[0]
    else Join(parts[..|parts| - 1], sep) + [sep] + parts[|parts| - 1]
  }

  /** `s.split(sep)` for a one-character separator: the pieces between
      separators, in order, with an empty piece wherever two separators meet or
      one starts or ends `s`. */
  function Split(s: string, sep: char): (parts: seq<string>)
    ensures |parts| >= 1
    ensures forall i :: 0 <= i < |parts| ==> sep !in parts[i]
    ensures |parts| == 1 <==> sep !in s
    ensures |parts| == 1 ==> parts[0] == s
    decreases |s|
  {
    if s == [] then [[]]
    else
      var init := Split(s[..|s| - 1], sep);
      var c := s[|s| - 1];
      assert s == s[..|s| - 1] + [c];
      if c == sep then init + [[]]
      else init[..|init| - 1] + [init[|init| - 1] + [c]]
  }

  /** Joining the pieces back gives the original text. */
  lemma {:induction false} JoinSplit(s: string, sep: char)
    ensures Join(Split(s, sep), sep) == s
    decreases |s|
  {
    if s != [] {
      var front := s[..|s| - 1];
      var c := s[|s| - 1];
      assert s == front + [c];
      JoinSplit(front, sep);
      var init := Split(front, sep);
      if c != sep {
        var parts := Split(s, sep);
        assert parts[..|parts| - 1] == init[..|init| - 1];
        if |init| > 1 {
          assert init[..|init| - 1] + [init[|init| - 1]] == init;
          assert Join(init, sep) == Join(init[..|init| - 1], sep) + [sep] + init[|init| - 1];
        }
      } else {
        assert (init + [[]])[..|init|] == init;
      }
    }
  }

  /** Splitting a join of separator-free pieces gives the pieces back. */
  lemma {:induction false} SplitJoin(parts: seq<string>, sep: char)
    requires |parts| >= 1
    requires forall i :: 0 <= i < |parts| ==> sep !in parts[i]
    ensures Split(Join(parts, sep), sep) == parts
    decreases |parts|
  {
    if |parts| > 1 {
      var init := parts[..|parts| - 1];
      SplitJoin(init, sep);
      SplitAppend(Join(init, sep), parts[|parts| - 1], sep);
    }
  }

  /** Appending a separator and a separator-free piece appends that piece. */
  lemma {:induction false} SplitAppend(s: string, piece: string, sep: char)
    requires sep !in piece
    ensures Split(s + [sep] + piece, sep) == Split(s, sep) + [piece]
    decreases |piece|
  {
    if piece == [] {
      assert s + [sep] + piece == s + [sep];
      assert (s + [sep])[..|s|] == s;
    } else {
      var front := piece[..|piece| - 1];
      var c := piece[|piece| - 1];
      assert sep !in front by {
        forall i | 0 <= i < |front| ensures front[i] != sep {
          assert front[i] == piece[i];
        }
      }
      SplitAppend(s, front, sep);
      var t := s + [sep] + piece;
      assert t[..|t| - 1] == s + [sep] + front;
      assert t[|t| - 1] == c;
      assert front + [c] == piece;
    }
  }

  /** `parts[parts.length - 1]` of `s.split(sep)`: the text after the last
      separator. It holds no separator, ends `s`, and is preceded by a separator
      whenever `s` has one. */
  function LastPart(s: string, sep: char): (r: string)
    ensures sep !in r
    ensures |r| <= |s| && r == s[|s| - |r|..]
    ensures sep in s ==> |r| < |s| && s[|s| - |r| - 1] == sep
    ensures sep !in s ==> r == s
    decreases |s|
  {
    if s == [] then []
    else if s[|s| - 1] == sep then []
    else
      var r := LastPart(s[..|s| - 1], sep);
      assert sep in s ==> sep in s[..|s| - 1] by {
        if sep in s {
          var i :| 0 <= i < |s| && s[i] == sep;
          assert s[..|s| - 1][i] == sep;
        }
      }
      r + [s[|s| - 1]]
  }

  /** `LastPart` is the last piece of the split. */
  lemma {:induction false} LastPartIsLastPiece(s: string, sep: char)
    ensures var parts := Split(s, sep); LastPart(s, sep) == parts[|parts| - 1]
    decreases |s|
  {
    if s != [] && s[|s| - 1] != sep {
      LastPartIsLastPiece(s[..|s| - 1], sep);
    }
  }

  /** The cleaning step of handleJoinMeeting: a text with a '/' is cut down to
      its last split piece, the text after its last '/'; other text is kept. */
  function CleanId(m: string): (id: string)
    ensures Slash !in id
    ensures |id| <= |m| && id == m[|m| - |id|..]
    ensures Slash in m ==> |id| < |m| && m[|m| - |id| - 1] == Slash
    ensures Slash !in m ==> id == m
  {
    if Slash in m then
      var parts := Split(m, Slash);
      assert parts[|parts| - 1] == LastPart(m, Slash) by {
        LastPartIsLastPiece(m, Slash);
      }
      parts[|parts| - 1]
    else m
  }

  /** The id handleJoinMeeting navigates to: the trimmed input, or `generated`
      (generateMeetingId()) when that is empty, cleaned. So the id never holds a
      '/', is the trimmed input itself when that holds none, and is empty when
      the trimmed input ends in '/'. */
  function MeetingId(input: string, generated: string): (id: string)
    ensures AllSpace(input) ==> id == CleanId(generated)
    ensures !AllSpace(input) ==> id == CleanId(Trim(input))
    ensures Slash !in id
    ensures !AllSpace(input) && Slash !in Trim(input) ==> id == Trim(input)
    ensures !AllSpace(input) && Trim(input)[|Trim(input)| - 1] == Slash ==> id == []
  {
    var typed := Trim(input);
    var m := if typed == [] then generated else typed;
    CleanId(m)
  }

  /** The address of a meeting page: `RoomPath` followed by the id, which reads
      back from it unchanged. */
  function RoomUrl(id: string): (url: string)
    ensures |url| == |RoomPath| + |id|
    ensures url[..|RoomPath|] == RoomPath && url[|RoomPath|..] == id
  {
    RoomPath + id
  }
}
