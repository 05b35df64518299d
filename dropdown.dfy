/**
 * The accessible DropDownList: the lifecycle overrides `init`, `_change`,
 * `_select`, `open` and `close`, the blur handler, and the deferred
 * `aria-activedescendant` write.
 *
 * The DOM is abstracted to what these overrides touch:
 * - the wrapper's ordered child list (see module Ordinal);
 * - the attribute maps of the wrapper, the `.k-dropdown-wrap`, the
 *   generated `.k-input`, the preceding label and the popup's option label.
 * What the base widget's `init` produced is passed to the constructor.
 */
module DropDown {
  import opened Wrappers
  import opened Platform
  import opened Annotations
  import opened Ordinal

  /** The attributes this layer reads or writes. */
  datatype AttrName =
    | Title | AriaSelected | AriaLabelledBy | AriaLive | AriaAtomic | AriaActiveDescendant | Id | Role

  /** A node's attributes, restricted to the names above. */
  type Attrs = map<AttrName, string>

  /** The DOM the base widget's `init` leaves behind, as far as the overrides read it. */
  datatype BaseDom = BaseDom(
    children: seq<Node>,      // the wrapper's children
    wrapperAttrs: Attrs,      // the wrapper, `_getWrapper()`
    wrapAttrs: Attrs,         // `.k-dropdown-wrap`
    inputAttrs: Attrs,        // `.k-input`
    precedingLabel: Option<Attrs>, // the wrapper's previous sibling when it is a label for the element
    optionLabel: Option<Attrs> // `.k-list-optionlabel` in the popup, when present
  )

  /** The id `$label.attr("id")` reads: absent when there is no label or it has no id. */
  function ExistingLabelId(precedingLabel: Option<Attrs>): Option<string> {
    if precedingLabel.Some? && Id in precedingLabel.value then Some(precedingLabel.value[Id]) else None
  }

  /** `aria-live="polite"` and `aria-atomic="true"`: the node announces changes of its content. */
  function LivePolite(m: Attrs): Attrs {
    m[AriaLive := "polite"][AriaAtomic := "true"]
  }

  /** The generated input on a Mac: a selected option with a stable id. */
  function SelectedOption(m: Attrs, id: string): Attrs {
    m[Id := id][Role := "option"][AriaSelected := "true"]
  }

  /** `$label.attr("id", labelId)` on a lookup that may have found nothing. */
  function WithLabelId(precedingLabel: Option<Attrs>, labelId: string): Option<Attrs> {
    if precedingLabel.Some? then Some(precedingLabel.value[Id := labelId]) else None
  }

  /** `optionLabel.attr("role", "option")` on a lookup that may have found nothing. */
  function WithOptionRole(optionLabel: Option<Attrs>): Option<Attrs> {
    if optionLabel.Some? then Some(optionLabel.value[Role := "option"]) else None
  }

  /** The wrapper's attributes after the unconditional part of `init`. */
  function AnnotatedWrapper(w: Attrs, text: string, labelId: string): Attrs {
    w[Title := text][AriaSelected := "true"][AriaLabelledBy := labelId]
  }

  /**
   * On Safari the widget appends two markers fewer than it has options. With
   * the wrap among the markers, the last option's index names the source
   * element, so selecting it leaves the wrap where it was.
   */
  lemma SafariLastOptionUnplaced(optionCount: nat, a: nat, prev: int)
    requires a <= MarkerCount(optionCount, true)
    ensures var n := MarkerCount(optionCount, true);
            var s := Layout(a, n - a, [SourceElement]);
            n > 0 ==> Reorder(s, prev, optionCount - 1) == s
  {
    var n := MarkerCount(optionCount, true);
    if n > 0 {
      ReorderPastLastMarker(a, n - a, [SourceElement], prev, optionCount - 1);
    }
  }

  /**
   * The options object a page passes to the widget. `init` appends the
   * suffix to its placeholder in place, so the page sees the change.
   */
  class Options {
    var placeholder: PlaceholderOption

    constructor (placeholder: PlaceholderOption)
      ensures this.placeholder == placeholder
    {
      this.placeholder := placeholder;
    }

    /** `extendedOptions.placeholder += " (custom)"` on the page's own object. */
    method AppendSuffix() returns (text: string)
      modifies this
      ensures text == PlaceholderText(old(placeholder))
      ensures placeholder == Text(text)
    {
      text := PlaceholderText(placeholder);
      placeholder := Text(text);
    }
  }

  class AccessibleDropDownList {
    const isMac: bool
    const isSafari: bool
    const elementId: Option<string>
    const placeholder: string
    const markerCount: nat

    var children: seq<Node>
    /** False once the source element has moved into `.k-dropdown-wrap` (no marker was appended). */
    var sourceIsWrapperChild: bool
    var prevSelectedIndex: Option<int>
    var wrapperAttrs: Attrs
    var wrapAttrs: Attrs
    var inputAttrs: Attrs
    var labelAttrs: Option<Attrs>
    var optionLabelAttrs: Option<Attrs>
    /** The `aria-activedescendant` value a `setTimeout(..., 0)` is waiting to write. */
    var pendingActiveDescendant: Option<string>

    ghost predicate Valid()
      reads this
    {
      && Count(children, GeneratedWrap) == 1
      && Count(children, Marker) == markerCount
      && Count(children, SourceElement) == (if sourceIsWrapperChild then 1 else 0)
      && (isMac <==> prevSelectedIndex.Some?)
      && (!isMac ==> sourceIsWrapperChild && markerCount == 0)
    }

    /** `init` */
    constructor (platform: string, userAgent: string, options: Options?,
                 elementId: Option<string>, text: string, selectedIndex: int, optionCount: nat,
                 dom: BaseDom)
      requires Count(dom.children, GeneratedWrap) == 1
      requires Count(dom.children, SourceElement) == 1
      requires Count(dom.children, Marker) == 0
      modifies options
      ensures Valid()
      ensures isMac == IsMacOs(platform) && isSafari == IsSafariBrowser(userAgent)
      ensures this.elementId == elementId
      ensures placeholder == PlaceholderText(if options == null then Missing else old(options.placeholder))
      ensures options != null ==> options.placeholder == Text(placeholder)
      ensures var labelId := LabelId(ExistingLabelId(dom.precedingLabel), elementId);
              var w := AnnotatedWrapper(dom.wrapperAttrs, text, labelId);
              && wrapperAttrs == (if isMac then LivePolite(w) else w)
              && labelAttrs == WithLabelId(dom.precedingLabel, labelId)
      ensures optionLabelAttrs == WithOptionRole(dom.optionLabel)
      ensures wrapAttrs == dom.wrapAttrs
      ensures isMac ==>
                && inputAttrs == SelectedOption(dom.inputAttrs, KInputId(elementId))
                && markerCount == MarkerCount(optionCount, isSafari)
                && children == PlaceSource(dom.children + Markers(markerCount))
                && sourceIsWrapperChild == (markerCount > 0)
                && prevSelectedIndex == Some(selectedIndex)
                && pendingActiveDescendant == Some(KInputId(elementId))
      ensures !isMac ==>
                && inputAttrs == LivePolite(dom.inputAttrs)
                && children == dom.children
                && sourceIsWrapperChild
                && prevSelectedIndex.None?
                && pendingActiveDescendant.None?
    {
      var mac, safari := IsMacOs(platform), IsSafariBrowser(userAgent);
      var p;
      if options != null {
        p := options.AppendSuffix();
      } else {
        p := PlaceholderText(Missing);
      }
      var labelId := LabelId(ExistingLabelId(dom.precedingLabel), elementId);
      var w := AnnotatedWrapper(dom.wrapperAttrs, text, labelId);
      var n: nat, kids, inWrapper, prev, pending, wAttrs, iAttrs;
      if mac {
        n := MarkerCount(optionCount, safari);
        kids := BuildOptionSet(dom.children, n);
        inWrapper := n > 0;
        prev := Some(selectedIndex);
        pending := Some(KInputId(elementId));
        wAttrs := LivePolite(w);
        iAttrs := SelectedOption(dom.inputAttrs, KInputId(elementId));
      } else {
        n, kids, inWrapper, prev, pending := 0, dom.children, true, None, None;
        wAttrs := w;
        iAttrs := LivePolite(dom.inputAttrs);
      }
      isMac, isSafari, this.elementId, markerCount := mac, safari, elementId, n;
      placeholder := p;
      children, sourceIsWrapperChild, prevSelectedIndex, pendingActiveDescendant := kids, inWrapper, prev, pending;
      wrapperAttrs, inputAttrs, wrapAttrs := wAttrs, iAttrs, dom.wrapAttrs;
      labelAttrs := WithLabelId(dom.precedingLabel, labelId);
      optionLabelAttrs := WithOptionRole(dom.optionLabel);
    }

    /** `_reorderOptions` */
    method ReorderOptions(selectedIndex: int)
      requires Valid() && isMac
      modifies this`children, this`prevSelectedIndex
      ensures Valid()
      ensures children == (if sourceIsWrapperChild then Reorder(old(children), old(prevSelectedIndex).value, selectedIndex)
                           else old(children))
      ensures prevSelectedIndex == Some(selectedIndex)
    {
      if sourceIsWrapperChild {
        ReorderPermutes(children, prevSelectedIndex.value, selectedIndex);
        children := Reorder(children, prevSelectedIndex.value, selectedIndex);
      }
      prevSelectedIndex := Some(selectedIndex);
    }

    /** `_change`: on a Mac the markers are reordered before the base handler runs. */
    method Change(selectedIndex: int)
      requires Valid()
      modifies this`children, this`prevSelectedIndex
      ensures Valid()
      ensures isMac ==> prevSelectedIndex == Some(selectedIndex)
      ensures isMac && sourceIsWrapperChild ==> children == Reorder(old(children), old(prevSelectedIndex).value, selectedIndex)
      ensures !(isMac && sourceIsWrapperChild) ==> children == old(children)
      ensures !isMac ==> prevSelectedIndex == old(prevSelectedIndex)
    {
      if isMac {
        ReorderOptions(selectedIndex);
      }
    }

    /** `_select`: on a Mac the `aria-activedescendant` write is scheduled again. */
    method Select()
      modifies this`pendingActiveDescendant
      ensures pendingActiveDescendant == if isMac then Some(KInputId(elementId)) else old(pendingActiveDescendant)
    {
      if isMac {
        pendingActiveDescendant := Some(KInputId(elementId));
      }
    }

    /**
     * The scheduled timer callback runs. It writes to whatever
     * `_getWrapper()` is by then: the source element's parent, which is
     * `.k-dropdown-wrap` once the source element has moved into it.
     */
    method RunDeferred()
      modifies this`wrapperAttrs, this`wrapAttrs, this`pendingActiveDescendant
      ensures pendingActiveDescendant.None?
      ensures old(pendingActiveDescendant).None? ==> wrapperAttrs == old(wrapperAttrs) && wrapAttrs == old(wrapAttrs)
      ensures old(pendingActiveDescendant).Some? && sourceIsWrapperChild ==>
                wrapperAttrs == old(wrapperAttrs)[AriaActiveDescendant := old(pendingActiveDescendant).value]
                && wrapAttrs == old(wrapAttrs)
      ensures old(pendingActiveDescendant).Some? && !sourceIsWrapperChild ==>
                wrapAttrs == old(wrapAttrs)[AriaActiveDescendant := old(pendingActiveDescendant).value]
                && wrapperAttrs == old(wrapperAttrs)
    {
      if pendingActiveDescendant.Some? {
        if sourceIsWrapperChild {
          wrapperAttrs := wrapperAttrs[AriaActiveDescendant := pendingActiveDescendant.value];
        } else {
          wrapAttrs := wrapAttrs[AriaActiveDescendant := pendingActiveDescendant.value];
        }
      }
      pendingActiveDescendant := None;
    }

    /** `open`: off a Mac, the generated input stops announcing while the list is open. */
    method Open()
      modifies this`inputAttrs
      ensures inputAttrs == if isMac then old(inputAttrs) else old(inputAttrs)[AriaLive := "off"]
    {
      if !isMac {
        inputAttrs := inputAttrs[AriaLive := "off"];
      }
    }

    /** `close`: off a Mac, the generated input announces value changes again. */
    method Close()
      modifies this`inputAttrs
      ensures inputAttrs == if isMac then old(inputAttrs) else old(inputAttrs)[AriaLive := "polite"]
    {
      if !isMac {
        inputAttrs := inputAttrs[AriaLive := "polite"];
      }
    }

    /** The blur handler registered by `init`: the title follows the displayed text. */
    method Blur(currentText: string)
      modifies this`wrapperAttrs
      ensures wrapperAttrs == old(wrapperAttrs)[Title := currentText]
    {
      wrapperAttrs := wrapperAttrs[Title := currentText];
    }
  }
}
