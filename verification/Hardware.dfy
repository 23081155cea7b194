/** The state `main` sets up and the threads share: the pixel buffer and the string table. */
module Hardware {
  import opened Bytes
  import opened Limits
  import opened PixelBuffer
  import opened StringTable

  datatype Option<T> = None | Some(value: T)

  /** One element of a chip-select list in the configuration file; a missing field is None. */
  datatype Setting = Setting(str: Option<int>, start: Option<int>, channels: Option<int>)
  {
    predicate Complete() {
      str.Some? && start.Some? && channels.Some?
    }
  }

  /** A string number the code may index with. */
  ghost predicate Indexable(settings: seq<Setting>) {
    forall i :: 0 <= i < |settings| && settings[i].Complete() ==> 0 <= settings[i].str.value < STRINGS
  }

  /** The entries one chip-select list contributes: incomplete elements are skipped. */
  ghost function SettingEntries(port: nat, settings: seq<Setting>): seq<Entry>
    requires port < PORTS && Indexable(settings)
  {
    if settings == [] then []
    else
      var x := settings[|settings| - 1];
      SettingEntries(port, settings[..|settings| - 1])
      + if x.Complete() then [Entry(port, x.str.value, x.start.value, x.channels.value)] else []
  }

  /** A file's four chip-select lists; a list the file does not have is None. */
  ghost predicate FileIndexable(file: seq<Option<seq<Setting>>>) {
    |file| == PORTS && forall p :: 0 <= p < PORTS && file[p].Some? ==> Indexable(file[p].value)
  }

  ghost function FileEntries(file: seq<Option<seq<Setting>>>, n: nat): seq<Entry>
    requires FileIndexable(file) && n <= PORTS
  {
    if n == 0 then []
    else FileEntries(file, n - 1) + if file[n - 1].Some? then SettingEntries(n - 1, file[n - 1].value) else []
  }

  /** The last complete element for string `str`, or -1. */
  ghost function LastSetting(settings: seq<Setting>, str: nat): (i: int)
    ensures -1 <= i < |settings|
    ensures 0 <= i ==> settings[i].Complete() && settings[i].str.value == str
    ensures forall j :: 0 <= j < |settings| && i < j ==> !settings[j].Complete() || settings[j].str.value != str
  {
    if settings == [] then -1
    else if settings[|settings| - 1].Complete() && settings[|settings| - 1].str.value == str then |settings| - 1
    else LastSetting(settings[..|settings| - 1], str)
  }

  lemma {:induction false} SettingsAt(t: Table, port: nat, settings: seq<Setting>, p: nat, s: nat)
    requires port < PORTS && p < PORTS && s < STRINGS && Indexable(settings)
    ensures var u, i := Overlay(t, SettingEntries(port, settings)), LastSetting(settings, s);
            (u.counts[Slot(p, s)], u.starts[Slot(p, s)]) ==
            if p == port && 0 <= i then (settings[i].channels.value, settings[i].start.value)
            else (t.counts[Slot(p, s)], t.starts[Slot(p, s)])
  {
    if settings != [] {
      var front, x := settings[..|settings| - 1], settings[|settings| - 1];
      SettingsAt(t, port, front, p, s);
      var es := SettingEntries(port, front);
      assert es + [] == es;
      if x.Complete() {
        assert (es + [Entry(port, x.str.value, x.start.value, x.channels.value)])[..|es|] == es;
      }
    }
  }

  /** Count and start of a string. */
  ghost function CountAndStart(t: Table, p: nat, s: nat): (int, int)
    requires p < PORTS && s < STRINGS
  {
    (t.counts[Slot(p, s)], t.starts[Slot(p, s)])
  }

  /** What a chip select's list says of a string, if it says something. */
  ghost function FromList(file: seq<Option<seq<Setting>>>, p: nat, s: nat): Option<(int, int)>
    requires FileIndexable(file) && p < PORTS && s < STRINGS
  {
    if file[p].Some? && 0 <= LastSetting(file[p].value, s) then
      var x := file[p].value[LastSetting(file[p].value, s)];
      Some((x.channels.value, x.start.value))
    else None
  }

  lemma ListAt(t: Table, file: seq<Option<seq<Setting>>>, n: nat, p: nat, s: nat)
    requires FileIndexable(file) && n < PORTS && p < PORTS && s < STRINGS && file[n].Some?
    ensures CountAndStart(Overlay(t, SettingEntries(n, file[n].value)), p, s) ==
            if p == n && FromList(file, p, s).Some? then FromList(file, p, s).value else CountAndStart(t, p, s)
  {
    SettingsAt(t, n, file[n].value, p, s);
    hide Overlay, SettingEntries, LastSetting, Slot;
  }

  /** The table that the first `n` lists make. */
  ghost function FileTable(file: seq<Option<seq<Setting>>>, n: nat): Table
    requires FileIndexable(file) && n <= PORTS
  {
    Overlay(Cleared(), FileEntries(file, n))
  }

  lemma FileOneMore(file: seq<Option<seq<Setting>>>, n: nat)
    requires FileIndexable(file) && n < PORTS
    ensures FileTable(file, n + 1) ==
            if file[n].Some? then Overlay(FileTable(file, n), SettingEntries(n, file[n].value)) else FileTable(file, n)
  {
    if file[n].Some? {
      OverlayConcat(Cleared(), FileEntries(file, n), SettingEntries(n, file[n].value));
    } else {
      assert FileEntries(file, n) + [] == FileEntries(file, n);
    }
    hide Overlay, SettingEntries, Cleared;
  }

  lemma FileListAt(file: seq<Option<seq<Setting>>>, n: nat, p: nat, s: nat)
    requires FileIndexable(file) && n < PORTS && p < PORTS && s < STRINGS
    ensures CountAndStart(FileTable(file, n + 1), p, s) ==
            if p == n && FromList(file, p, s).Some? then FromList(file, p, s).value
            else CountAndStart(FileTable(file, n), p, s)
  {
    FileOneMore(file, n);
    hide FileTable, Overlay, SettingEntries, CountAndStart;
    if file[n].Some? {
      ListAt(FileTable(file, n), file, n, p, s);
    }
  }

  /** The file's table, string by string: the last complete element for the string in its
      chip select's list, or no channels. */
  lemma {:induction false} FileTableAt(file: seq<Option<seq<Setting>>>, n: nat, p: nat, s: nat)
    requires FileIndexable(file) && n <= PORTS && p < PORTS && s < STRINGS
    ensures CountAndStart(FileTable(file, n), p, s) ==
            if p < n && FromList(file, p, s).Some? then FromList(file, p, s).value else (0, 0)
  {
    NoFileAt(file, p, s);
    hide FileIndexable, FileTable, CountAndStart, FromList;
    if 0 < n {
      FileTableAt(file, n - 1, p, s);
      FileListAt(file, n - 1, p, s);
    }
  }

  lemma NoFileAt(file: seq<Option<seq<Setting>>>, p: nat, s: nat)
    requires FileIndexable(file) && p < PORTS && s < STRINGS
    ensures CountAndStart(FileTable(file, 0), p, s) == (0, 0)
  {
  }

  /** The last element that has all three fields and names the string. */
  lemma LastSettingIs(settings: seq<Setting>, str: nat, i: int)
    requires -1 <= i < |settings|
    requires 0 <= i ==> settings[i].str == Some(str) && settings[i].start.Some? && settings[i].channels.Some?
    requires forall j :: i < j < |settings| ==>
               settings[j].str != Some(str) || settings[j].start.None? || settings[j].channels.None?
    ensures LastSetting(settings, str) == i
  {
    var l := LastSetting(settings, str);
    if l < i {
      assert settings[i].Complete();
    }
  }

  /** The table that a file with four lists makes, with the elements' fields spelled out: the last
      element that has all three and names the string sets its count and its start, whatever their
      values; where there is no such element the string has no channels. */
  lemma FileTableSpelledOut(file: seq<Option<seq<Setting>>>, p: nat, s: nat, i: int)
    requires FileIndexable(file) && p < 4 && s < 8
    requires file[p].Some? ==>
               && -1 <= i < |file[p].value|
               && (0 <= i ==> var x := file[p].value[i]; x.str == Some(s) && x.start.Some? && x.channels.Some?)
               && forall j :: i < j < |file[p].value| ==>
                    var x := file[p].value[j]; x.str != Some(s) || x.start.None? || x.channels.None?
    ensures var t := Overlay(Cleared(), FileEntries(file, 4));
            (t.counts[8 * p + s], t.starts[8 * p + s]) ==
            if file[p].Some? && 0 <= i then (file[p].value[i].channels.value, file[p].value[i].start.value) else (0, 0)
  {
    hide Overlay, FileEntries, Cleared;
    FileTableAt(file, 4, p, s);
    if file[p].Some? {
      LastSettingIs(file[p].value, s, i);
    }
  }

  /** `thread_ctrl`, with the two arrays of its four `string_ctrl`s laid end to end. */
  class ThreadCtrl {
    const pixelPorts: int
    const buffer: array<byte>
    const channelCount: array<int>
    const startChannel: array<int>
    /** The cells of the table that have been written since the file was read, in order. */
    ghost var cells: seq<Cell>

    ghost predicate Valid() {
      && buffer.Length == PIXEL_BUFFER_SIZE
      && channelCount.Length == SLOTS
      && startChannel.Length == SLOTS
      && channelCount != startChannel
      && buffer as object != channelCount
      && buffer as object != startChannel
    }

    ghost function Contents(): Table
      requires Valid()
      reads channelCount, startChannel
    {
      Table(channelCount[..], startChannel[..])
    }

    ghost function Channels(): Pixels
      requires Valid()
      reads buffer
    {
      buffer[..]
    }

    /** The buffer cleared and the table read from the file, later elements over earlier ones. */
    constructor (pixelPorts: int, file: seq<Option<seq<Setting>>>)
      requires FileIndexable(file)
      ensures Valid() && this.pixelPorts == pixelPorts
      ensures fresh(buffer) && fresh(channelCount) && fresh(startChannel)
      ensures forall ch :: 0 <= ch < PIXEL_BUFFER_SIZE ==> Channels()[ch] == 0
      ensures Contents() == Overlay(Cleared(), FileEntries(file, PORTS)) && cells == []
    {
      this.pixelPorts := pixelPorts;
      buffer := new byte[PIXEL_BUFFER_SIZE](i => 0);
      channelCount := new int[SLOTS](i => 0);
      startChannel := new int[SLOTS](i => 0);
      cells := [];
      new;
      assert Contents() == Cleared();
      for cs := 0 to PORTS
        invariant Contents() == Overlay(Cleared(), FileEntries(file, cs))
        modifies channelCount, startChannel
      {
        assert FileEntries(file, cs) + [] == FileEntries(file, cs);
        if file[cs].Some? {
          LoadSettings(cs, file[cs].value);
          OverlayConcat(Cleared(), FileEntries(file, cs), SettingEntries(cs, file[cs].value));
        }
      }
    }

    method SetCount(k: nat, v: int)
      requires Valid() && k < SLOTS
      modifies channelCount, `cells
      ensures Contents() == Written(old(Contents()), CountCell(k, v))
      ensures cells == old(cells) + [CountCell(k, v)]
    {
      channelCount[k] := v;
      cells := cells + [CountCell(k, v)];
    }

    method SetStart(k: nat, v: int)
      requires Valid() && k < SLOTS
      modifies startChannel, `cells
      ensures Contents() == Written(old(Contents()), StartCell(k, v))
      ensures cells == old(cells) + [StartCell(k, v)]
    {
      startChannel[k] := v;
      cells := cells + [StartCell(k, v)];
    }

    method LoadSettings(cs: nat, settings: seq<Setting>)
      requires Valid() && cs < PORTS && Indexable(settings)
      modifies channelCount, startChannel
      ensures Contents() == Overlay(old(Contents()), SettingEntries(cs, settings))
    {
      for i := 0 to |settings|
        invariant Contents() == Overlay(old(Contents()), SettingEntries(cs, settings[..i]))
      {
        assert settings[..i + 1][..i] == settings[..i];
        var x := settings[i];
        ghost var es := SettingEntries(cs, settings[..i]);
        assert es + [] == es;
        if x.Complete() {
          channelCount[Slot(cs, x.str.value)] := x.channels.value;
          startChannel[Slot(cs, x.str.value)] := x.start.value;
          ghost var e := Entry(cs, x.str.value, x.start.value, x.channels.value);
          assert (es + [e])[..|es|] == es;
        }
      }
      assert settings[..|settings|] == settings;
    }
  }
}
