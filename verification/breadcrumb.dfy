/** `breadcrumb.go`: the breadcrumb trail of a request, with crumbs that
    wait to be appended after the next ones. */
module Breadcrumb {
  import opened Wrappers

  /** `BreadcrumbProxy`. */
  datatype Crumb = Crumb(uri: string, caption: string, icon: string)

  /** `NewBreadcrumb`: the icon is the first one given, or `""`. */
  function NewBreadcrumb(uri: string, caption: string, icons: seq<string>): (c: Crumb)
    ensures c.uri == uri && c.caption == caption
    ensures |icons| == 0 ==> c.icon == ""
    ensures |icons| > 0 ==> c.icon == icons[0]
  {
    Crumb(uri, caption, if |icons| == 0 then "" else icons[0])
  }

  /** `Breadcrumbs`, over any kind of crumb. */
  datatype Breadcrumbs<C> = Breadcrumbs(items: seq<C>, afterNext: seq<C>)

  /** `Append`: the given crumbs and then the waiting ones are added; none
      waits any longer. */
  function Append<C>(b: Breadcrumbs<C>, crumbs: seq<C>): (r: Breadcrumbs<C>)
    ensures r.items == b.items + crumbs + b.afterNext
    ensures r.afterNext == []
  {
    Breadcrumbs(b.items + (crumbs + b.afterNext), [])
  }

  /** `AfterNext`: only the waiting list grows. */
  function AfterNext<C>(b: Breadcrumbs<C>, crumbs: seq<C>): (r: Breadcrumbs<C>)
    ensures r.items == b.items
    ensures r.afterNext == b.afterNext + crumbs
  {
    b.(afterNext := b.afterNext + crumbs)
  }

  predicate IsEmpty<C>(b: Breadcrumbs<C>) {
    |b.items| == 0
  }

  /** `Last`: the final crumb, or nil. */
  function Last<C>(b: Breadcrumbs<C>): (r: Option<C>)
    ensures r.None? <==> IsEmpty(b)
    ensures r.Some? ==> r.value == b.items[|b.items| - 1]
  {
    if |b.items| == 0 then None else Some(b.items[|b.items| - 1])
  }

  /** `ItemsWithoutLast`: every crumb but the last; none when empty. */
  function ItemsWithoutLast<C>(b: Breadcrumbs<C>): (r: seq<C>)
    ensures IsEmpty(b) ==> r == []
    ensures !IsEmpty(b) ==> |r| == |b.items| - 1
  {
    if |b.items| == 0 then [] else b.items[..|b.items| - 1]
  }

  /** The two accessors split the trail: the crumbs without the last,
      followed by the last, are all the crumbs. */
  lemma LastSplit<C>(b: Breadcrumbs<C>)
    requires !IsEmpty(b)
    ensures ItemsWithoutLast(b) + [Last(b).value] == b.items
  {
  }

  /** Crumbs set aside with `AfterNext` come after the crumbs of the next
      `Append`, and then the trail ends with the last of them. */
  lemma AfterNextThenAppend<C>(b: Breadcrumbs<C>, later: seq<C>, crumbs: seq<C>)
    requires b.afterNext == [] && |later| > 0
    ensures Append(AfterNext(b, later), crumbs).items == b.items + crumbs + later
    ensures Last(Append(AfterNext(b, later), crumbs)) == Some(later[|later| - 1])
    ensures !IsEmpty(Append(AfterNext(b, later), crumbs))
  {
  }

  /** A second `Append` adds no waiting crumbs again. */
  lemma AppendTwice<C>(b: Breadcrumbs<C>, first: seq<C>, second: seq<C>)
    ensures Append(Append(b, first), second).items == b.items + first + b.afterNext + second
  {
  }
}
