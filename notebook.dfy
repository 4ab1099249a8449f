/** The Notebook class of notebook.py: a row of buttons, one per tab, each showing the frame
    of its tab. Frames, buttons and callbacks are handles; what the widgets do is recorded
    as events in the order the source does it. */
module Notebook {
  import opened Wrappers

  /** A callback handed in by the code that adds the tab. */
  datatype Callback = Callback(id: nat)

  /** One entry of `frame_list`. Frames and buttons are named by the value of `frame_index`
      when they were made; `command` is the index the tab's button passes to show_tab. */
  datatype Tab = Tab(name: string, frame: nat, command: int,
                     showCb: Option<Callback>, hideCb: Option<Callback>)

  /** What show_tab does to the widgets, in order. */
  datatype Event =
    | Forgotten(frame: nat)     // grid_forget of a frame
    | Raised(button: nat)       // relief='raised'
    | Gridded(frame: nat)       // grid of a frame into the notebook
    | Sunken(button: nat)       // relief='sunken'
    | Called(cb: Callback)      // a show or hide callback

  /** The callback, when there is one, as the event of calling it. */
  function Call(cb: Option<Callback>): (r: seq<Event>)
    ensures cb.None? ==> r == []
    ensures cb.Some? ==> r == [Called(cb.value)]
  {
    if cb.None? then [] else [Called(cb.value)]
  }

  /** The first half of show_tab: the tab shown so far is hidden. */
  function HideEvents(t: Tab): seq<Event> {
    [Forgotten(t.frame), Raised(t.frame)] + Call(t.hideCb)
  }

  /** The second half of show_tab: the new tab is shown. */
  function ShowEvents(t: Tab): seq<Event> {
    [Gridded(t.frame), Sunken(t.frame)] + Call(t.showCb)
  }

  /** Switching tabs hides the old one completely, its callback included, before anything of
      the new one is shown; the hide callback is called before the show callback. */
  lemma HideBeforeShow(old_: Tab, new_: Tab)
    requires old_.hideCb.Some? && new_.showCb.Some?
    ensures var e := HideEvents(old_) + ShowEvents(new_);
      |e| == 6 && e[2] == Called(old_.hideCb.value) && e[5] == Called(new_.showCb.value) &&
      (forall k :: 0 <= k < 3 ==> !e[k].Gridded? && !e[k].Sunken?) &&
      (forall k :: 3 <= k < 6 ==> !e[k].Forgotten? && !e[k].Raised?)
  {
    var e := HideEvents(old_) + ShowEvents(new_);
    assert e == [Forgotten(old_.frame), Raised(old_.frame), Called(old_.hideCb.value),
                 Gridded(new_.frame), Sunken(new_.frame), Called(new_.showCb.value)];
  }

  /** The callbacks the events call, in order. */
  function Callbacks(e: seq<Event>): seq<Callback> {
    if e == [] then [] else (if e[0].Called? then [e[0].cb] else []) + Callbacks(e[1..])
  }

  lemma {:induction false} CallbacksAppend(a: seq<Event>, b: seq<Event>)
    ensures Callbacks(a + b) == Callbacks(a) + Callbacks(b)
  {
    if a == [] {
      assert a + b == b;
    } else {
      assert (a + b)[0] == a[0] && (a + b)[1..] == a[1..] + b;
      CallbacksAppend(a[1..], b);
    }
  }

  /** Switching tabs calls exactly the callbacks that were given, the old tab's hide callback
      before the new tab's show callback: a missing callback is not called, and every other
      event is a widget change, two for each tab. */
  lemma SwitchCallbacks(old_: Tab, new_: Tab)
    ensures var e := HideEvents(old_) + ShowEvents(new_);
      |e| - |Callbacks(e)| == 4
    ensures var e := HideEvents(old_) + ShowEvents(new_);
      old_.hideCb.None? && new_.showCb.None? ==> Callbacks(e) == []
    ensures var e := HideEvents(old_) + ShowEvents(new_);
      old_.hideCb.Some? && new_.showCb.None? ==> Callbacks(e) == [old_.hideCb.value]
    ensures var e := HideEvents(old_) + ShowEvents(new_);
      old_.hideCb.None? && new_.showCb.Some? ==> Callbacks(e) == [new_.showCb.value]
    ensures var e := HideEvents(old_) + ShowEvents(new_);
      old_.hideCb.Some? && new_.showCb.Some? ==> Callbacks(e) == [old_.hideCb.value, new_.showCb.value]
  {
    var h, w := [Forgotten(old_.frame), Raised(old_.frame)], [Gridded(new_.frame), Sunken(new_.frame)];
    assert Callbacks(h) == [] by {
      assert h[1..] == [Raised(old_.frame)] && h[1..][1..] == [];
      assert Callbacks(h[1..]) == [];
    }
    assert Callbacks(w) == [] by {
      assert w[1..] == [Sunken(new_.frame)] && w[1..][1..] == [];
      assert Callbacks(w[1..]) == [];
    }
    var ch, cs := Call(old_.hideCb), Call(new_.showCb);
    assert Callbacks(ch) == (if old_.hideCb.Some? then [old_.hideCb.value] else []) by {
      if old_.hideCb.Some? { assert ch[1..] == []; }
    }
    assert Callbacks(cs) == (if new_.showCb.Some? then [new_.showCb.value] else []) by {
      if new_.showCb.Some? { assert cs[1..] == []; }
    }
    CallbacksAppend(h, ch);
    CallbacksAppend(w, cs);
    CallbacksAppend(HideEvents(old_), ShowEvents(new_));
  }

  class Notebook {
    var tabs: seq<Tab>
    var frameIndex: nat
    var crntIndex: int
    /** What show_tab did to the widgets so far. */
    var events: seq<Event>

    /** `frame_index` counts the tabs, each button shows its own tab, and the current index
        reads a tab whenever there is one (it stays 0 until then). */
    predicate Valid()
      reads this
    {
      frameIndex == |tabs| &&
      (forall i :: 0 <= i < |tabs| ==> tabs[i].command == i && tabs[i].frame == i) &&
      (if tabs == [] then crntIndex == 0 else InRange(crntIndex, |tabs|))
    }

    /** A notebook with one tab per name in `names`, in that order, none of them shown. */
    constructor (names: Option<seq<string>>)
      ensures Valid() && crntIndex == 0 && events == []
      ensures names.None? ==> tabs == []
      ensures names.Some? ==> (|tabs| == |names.value| &&
        forall i :: 0 <= i < |tabs| ==> tabs[i] == Tab(names.value[i], i, i, None, None))
    {
      tabs := [];
      frameIndex := 0;
      crntIndex := 0;
      events := [];
      new;
      if names.Some? {
        var j := 0;
        while j < |names.value|
          invariant 0 <= j <= |names.value|
          invariant Valid() && crntIndex == 0 && events == [] && |tabs| == j
          invariant forall i :: 0 <= i < j ==> tabs[i] == Tab(names.value[i], i, i, None, None)
        {
          AddTab(names.value[j], None, None);
          j := j + 1;
        }
      }
    }

    /** add_tab: one entry at the end, whose button will show it; nothing else changes. */
    method AddTab(name: string, showCb: Option<Callback>, hideCb: Option<Callback>)
      requires Valid()
      modifies this
      ensures tabs == old(tabs) + [Tab(name, old(frameIndex), old(frameIndex), showCb, hideCb)]
      ensures frameIndex == old(frameIndex) + 1 && Valid()
      ensures crntIndex == old(crntIndex) && events == old(events)
    {
      tabs := tabs + [Tab(name, frameIndex, frameIndex, showCb, hideCb)];
      frameIndex := frameIndex + 1;
    }

    /** show_tab: hide the current tab, show tab `index`, and make it current. Reading a tab
        that is not there raises: before anything happens for the current one, after it has
        been hidden for the new one. */
    method ShowTab(index: int) returns (ok: bool)
      modifies this
      ensures tabs == old(tabs) && frameIndex == old(frameIndex)
      ensures ok <==> InRange(old(crntIndex), |tabs|) && InRange(index, |tabs|)
      ensures ok ==> (crntIndex == index && events ==
        old(events) + HideEvents(tabs[Slot(old(crntIndex), |tabs|)]) +
        ShowEvents(tabs[Slot(index, |tabs|)]))
      ensures !ok ==> crntIndex == old(crntIndex)
      ensures !ok && InRange(old(crntIndex), |tabs|) ==>
        events == old(events) + HideEvents(tabs[Slot(old(crntIndex), |tabs|)])
      ensures !InRange(old(crntIndex), |tabs|) ==> events == old(events)
      ensures old(Valid()) ==> Valid()
    {
      if !InRange(crntIndex, |tabs|) {
        return false;
      }
      var crnt := tabs[Slot(crntIndex, |tabs|)];
      events := events + [Forgotten(crnt.frame), Raised(crnt.frame)];
      if crnt.hideCb.Some? {
        events := events + [Called(crnt.hideCb.value)];
      }
      if !InRange(index, |tabs|) {
        return false;
      }
      var next := tabs[Slot(index, |tabs|)];
      events := events + [Gridded(next.frame), Sunken(next.frame)];
      if next.showCb.Some? {
        events := events + [Called(next.showCb.value)];
      }
      crntIndex := index;
      return true;
    }

    /** A press on the button of tab `i`: the index it captured when it was made is `i`, so
        the press shows that tab. */
    method Press(i: nat) returns (ok: bool)
      requires Valid() && i < |tabs|
      modifies this
      ensures ok && crntIndex == i && Valid()
      ensures tabs == old(tabs) && events == old(events) +
        HideEvents(tabs[Slot(old(crntIndex), |tabs|)]) + ShowEvents(tabs[i])
    {
      ok := ShowTab(tabs[i].command);
    }

    /** get_frame: the frame of the tab at `index`, or None where reading it raises. */
    function GetFrame(index: int): (r: Option<nat>)
      reads this
      ensures r.Some? <==> InRange(index, |tabs|)
      ensures r.Some? ==> exists k :: 0 <= k < |tabs| && r.value == tabs[k].frame
      ensures Valid() && 0 <= index < |tabs| ==> r == Some(index)
    {
      if InRange(index, |tabs|) then Some(tabs[Slot(index, |tabs|)].frame) else None
    }

    /** get_tab_index: the first tab with that name, or -1 when there is none. */
    method GetTabIndex(name: string) returns (idx: int)
      ensures -1 <= idx < |tabs|
      ensures idx == -1 <==> forall k :: 0 <= k < |tabs| ==> tabs[k].name != name
      ensures idx >= 0 ==> (tabs[idx].name == name &&
        forall k :: 0 <= k < idx ==> tabs[k].name != name)
    {
      var k := 0;
      while k < |tabs|
        invariant 0 <= k <= |tabs|
        invariant forall j :: 0 <= j < k ==> tabs[j].name != name
      {
        if tabs[k].name == name {
          return k;
        }
        k := k + 1;
      }
      return -1;
    }
  }
}
