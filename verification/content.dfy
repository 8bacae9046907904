/**
 * The browser extension's content script: on a PASTE_SNIPPET message it
 * splices the snippet's code into the focused text field over the current
 * selection.
 */
module PasteSnippet {
  import opened Js

  const PasteAction := "PASTE_SNIPPET"

  datatype Message = Message(action: string, code: string)

  /**
   * The focused element. `selectionStart`/`selectionEnd` are None (null) for
   * input types that do not support a selection.
   */
  datatype Element = Element(
    tagName: string,
    isContentEditable: bool,
    value: string,
    selectionStart: Option<nat>,
    selectionEnd: Option<nat>)

  /** The one effect the listener has. */
  datatype Effect =
    | NoEffect
    | SetValue(value: string)        // activeElement.value = ...
    | InsertText(text: string)       // document.execCommand('insertText', false, text)
    | CopyToClipboard(text: string)  // navigator.clipboard.writeText(text), then an alert

  predicate IsTextField(el: Element) {
    el.tagName == "INPUT" || el.tagName == "TEXTAREA"
  }

  /** A selection index as `substring` reads it: null converts to 0. */
  function SelectionIndex(s: Option<nat>): int {
    if s.Some? then s.value else 0
  }

  /**
   * `val.substring(0, start) + text + val.substring(end)`: for an in-range
   * selection the text before `start` and from `end` on survive unchanged and
   * `text` takes the place of the selection.
   */
  function Splice(val: string, start: int, end: int, text: string): (r: string)
    ensures 0 <= start <= end <= |val| ==>
      && |r| == |val| - (end - start) + |text|
      && r[..start] == val[..start]
      && r[start..start + |text|] == text
      && r[start + |text|..] == val[end..]
  {
    Substring(val, 0, start) + text + Substring(val, end, |val|)
  }

  /** The `chrome.runtime.onMessage` listener. */
  function OnMessage(msg: Message, el: Element): (e: Effect)
    ensures msg.action != PasteAction ==> e == NoEffect
    ensures msg.action == PasteAction && IsTextField(el) ==>
      e.SetValue? &&
      var start := SelectionIndex(el.selectionStart);
      var end := SelectionIndex(el.selectionEnd);
      (0 <= start <= end <= |el.value| ==>
         e.value == el.value[..start] + msg.code + el.value[end..])
    ensures msg.action == PasteAction && !IsTextField(el) ==>
      e == (if el.isContentEditable then InsertText(msg.code) else CopyToClipboard(msg.code))
  {
    if msg.action != PasteAction then NoEffect
    else if IsTextField(el) then
      var start := SelectionIndex(el.selectionStart);
      var end := SelectionIndex(el.selectionEnd);
      SetValue(Splice(el.value, start, end, msg.code))
    else if el.isContentEditable then InsertText(msg.code)
    else CopyToClipboard(msg.code)
  }

  /** A collapsed selection is a pure insertion: nothing is deleted and the value grows by the code's length. */
  lemma CollapsedSelectionInserts(val: string, at: nat, text: string)
    requires at <= |val|
    ensures var r := Splice(val, at, at, text);
            |r| == |val| + |text| && r[..at] + r[at + |text|..] == val
  {
  }

  /** Splicing the removed text back over the inserted code restores the original value. */
  lemma SpliceUndo(val: string, start: nat, end: nat, text: string)
    requires start <= end <= |val|
    ensures Splice(Splice(val, start, end, text), start, start + |text|, val[start..end]) == val
  {
  }

  /** A field without selection support (both indices null) gets the code prepended. */
  lemma NoSelectionPrepends(msg: Message, el: Element)
    requires msg.action == PasteAction && IsTextField(el)
    requires el.selectionStart.None? && el.selectionEnd.None?
    ensures OnMessage(msg, el) == SetValue(msg.code + el.value)
  {
  }

  /** A selection past the end of the value, as `substring` clamps it, appends the code. */
  lemma SelectionPastEndAppends(val: string, start: int, end: int, text: string)
    requires start >= |val| && end >= |val|
    ensures Splice(val, start, end, text) == val + text
  {
  }
}
