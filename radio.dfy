/**
 * The non-widget part of the desktop front-end's component: its state (the
 * station list, what plays, what the pointer hovers, which row the context
 * menu is for, the window title and the pending new station) and one method
 * per message it handles. Playback itself is delegated to an external player,
 * whose calls are recorded in `player` in the order they are made.
 */
module RadioApp {
  import opened Wrappers
  import opened Catalog

  /** The window title when nothing plays. */
  const DEFAULT_TITLE: string := "RelmyVibes"

  /**
   * A call made on the external media player: `SetUri` records `set_uri`,
   * `Start` records `play` and `Halt` records `stop`.
   */
  datatype PlayerCall = SetUri(uri: string) | Start | Halt

  /** The messages handled here. */
  datatype Msg =
    | Play(station: Station, id: nat)
    | Stop
    | StationNameChanged(name: string)
    | StationUrlChanged(url: string)
    | AddStation
    | ShowMenu
    | DeleteStation
    | SetHoverId(hover: Option<nat>)

  class Radio {
    const stationList: StationList
    var title: string
    var newStationName: string
    var newStationUrl: string
    var hoverId: Option<nat>
    var menuId: nat
    var playingId: Option<nat>
    ghost var player: seq<PlayerCall>

    ghost predicate Valid()
      reads this, stationList, stationList.items
    {
      stationList.Valid()
    }

    /** Startup: the stored stations are loaded in file order; nothing plays, nothing is hovered. */
    constructor (stored: seq<Station>)
      ensures Valid() && fresh(stationList)
      ensures Stations(stationList.items) == stored
      ensures Ids(stationList.items) == Range(0, |stored|)
      ensures forall i :: 0 <= i < |stationList.items| ==> !stationList.items[i].active
      ensures title == DEFAULT_TITLE && newStationName == "" && newStationUrl == ""
      ensures hoverId == None && menuId == 0 && playingId == None
      ensures player == []
    {
      var list := new StationList();
      list.Load(stored);
      stationList := list;
      title := DEFAULT_TITLE;
      newStationName := "";
      newStationUrl := "";
      hoverId := None;
      menuId := 0;
      playingId := None;
      player := [];
    }

    /** `if let Some(item) = get_by_id(id) { item.inactive() }`: the first item with the id goes inactive. */
    method InactivateFound(id: Option<nat>)
      requires Valid()
      modifies stationList.items
      ensures Valid()
      ensures forall j :: 0 <= j < |stationList.items| ==>
        stationList.items[j].active ==
          if Find(stationList.items, id) == Some(j) then false else old(stationList.items[j].active)
    {
      var found := stationList.GetById(id);
      if found.Some? {
        found.value.Inactive();
      }
    }

    /** `if let Some(item) = get_by_id(id) { item.active() }`: the first item with the id goes active. */
    method ActivateFound(id: Option<nat>)
      requires Valid()
      modifies stationList.items
      ensures Valid()
      ensures forall j :: 0 <= j < |stationList.items| ==>
        stationList.items[j].active ==
          if Find(stationList.items, id) == Some(j) then true else old(stationList.items[j].active)
    {
      var found := stationList.GetById(id);
      if found.Some? {
        found.value.Active();
      }
    }

    /**
     * Marks the item found by the old playing id inactive, then the item
     * found by the hovered id (not by `id`) active, and starts `station`.
     */
    method Play(station: Station, id: nat)
      requires Valid()
      modifies this, stationList.items
      ensures Valid() && unchanged(stationList)
      ensures forall j :: 0 <= j < |stationList.items| ==>
        stationList.items[j].active ==
          if Find(stationList.items, old(hoverId)) == Some(j) then true
          else if Find(stationList.items, old(playingId)) == Some(j) then false
          else old(stationList.items[j].active)
      ensures playingId == Some(id) && title == station.name
      ensures player == old(player) + [SetUri(station.url), Start]
      ensures hoverId == old(hoverId) && menuId == old(menuId)
      ensures newStationName == old(newStationName) && newStationUrl == old(newStationUrl)
    {
      InactivateFound(playingId);
      ActivateFound(hoverId);
      playingId := Some(id);
      title := station.name;
      player := player + [SetUri(station.url), Start];
    }

    /** Marks the item found by the playing id inactive and stops. */
    method Stop()
      requires Valid()
      modifies this, stationList.items
      ensures Valid() && unchanged(stationList)
      ensures forall j :: 0 <= j < |stationList.items| ==>
        stationList.items[j].active ==
          if Find(stationList.items, old(playingId)) == Some(j) then false
          else old(stationList.items[j].active)
      ensures playingId == None && title == DEFAULT_TITLE
      ensures player == old(player) + [Halt]
      ensures hoverId == old(hoverId) && menuId == old(menuId)
      ensures newStationName == old(newStationName) && newStationUrl == old(newStationUrl)
    {
      InactivateFound(playingId);
      playingId := None;
      title := DEFAULT_TITLE;
      player := player + [Halt];
    }

    method StationNameChanged(name: string)
      modifies this
      ensures newStationName == name
      ensures newStationUrl == old(newStationUrl) && title == old(title) && player == old(player)
      ensures hoverId == old(hoverId) && menuId == old(menuId) && playingId == old(playingId)
    {
      newStationName := name;
    }

    method StationUrlChanged(url: string)
      modifies this
      ensures newStationUrl == url
      ensures newStationName == old(newStationName) && title == old(title) && player == old(player)
      ensures hoverId == old(hoverId) && menuId == old(menuId) && playingId == old(playingId)
    {
      newStationUrl := url;
    }

    /**
     * Appends the pending station when both its name and URL are non-empty;
     * the pending fields are kept either way.
     */
    method AddStation()
      requires Valid()
      modifies stationList
      ensures Valid()
      ensures newStationName != "" && newStationUrl != "" ==>
        && |stationList.items| == old(|stationList.items|) + 1
        && stationList.items[..old(|stationList.items|)] == old(stationList.items)
        && var added := stationList.items[old(|stationList.items|)];
        && fresh(added)
        && added.station == Station(newStationName, newStationUrl)
        && added.id == old(|stationList.items|)
        && !added.active
        && stationList.saved == Some(Stations(stationList.items))
      ensures newStationName == "" || newStationUrl == "" ==> unchanged(stationList)
      ensures unchanged(this)
    {
      if newStationName != "" && newStationUrl != "" {
        var _ := stationList.Append(Station(newStationName, newStationUrl));
      }
    }

    /** Points the context menu at the hovered row; with nothing hovered the menu id is kept. */
    method ShowMenu()
      modifies this
      ensures menuId == if old(hoverId).Some? then old(hoverId).value else old(menuId)
      ensures hoverId == old(hoverId) && playingId == old(playingId) && title == old(title)
      ensures newStationName == old(newStationName) && newStationUrl == old(newStationUrl)
      ensures player == old(player)
    {
      if hoverId.Some? {
        menuId := hoverId.value;
      }
    }

    /** Removes the station the context menu was opened for. */
    method DeleteStation()
      requires Valid()
      modifies stationList
      ensures Valid()
      ensures stationList.items == Removed(old(stationList.items), menuId)
      ensures stationList.saved == Some(Stations(stationList.items))
      ensures unchanged(this)
    {
      stationList.RemoveById(menuId);
    }

    method SetHoverId(id: Option<nat>)
      modifies this
      ensures hoverId == id
      ensures menuId == old(menuId) && playingId == old(playingId) && title == old(title)
      ensures newStationName == old(newStationName) && newStationUrl == old(newStationUrl)
      ensures player == old(player)
    {
      hoverId := id;
    }

    /** Dispatches one message to the method handling it. */
    method Update(msg: Msg)
      requires Valid()
      modifies this, stationList, stationList.items
      ensures Valid()
      // the station list
      ensures !(msg.AddStation? || msg.DeleteStation?) ==> unchanged(stationList)
      ensures msg.AddStation? && newStationName != "" && newStationUrl != "" ==>
        && |stationList.items| == old(|stationList.items|) + 1
        && stationList.items[..old(|stationList.items|)] == old(stationList.items)
        && var added := stationList.items[old(|stationList.items|)];
        && fresh(added)
        && added.station == Station(newStationName, newStationUrl)
        && added.id == old(|stationList.items|)
        && !added.active
        && stationList.saved == Some(Stations(stationList.items))
      ensures msg.AddStation? && (newStationName == "" || newStationUrl == "") ==> unchanged(stationList)
      ensures msg.DeleteStation? ==>
        && stationList.items == Removed(old(stationList.items), old(menuId))
        && stationList.saved == Some(Stations(stationList.items))
      // the flags of the items
      ensures msg.Play? ==> forall j :: 0 <= j < |stationList.items| ==>
        stationList.items[j].active ==
          if Find(stationList.items, old(hoverId)) == Some(j) then true
          else if Find(stationList.items, old(playingId)) == Some(j) then false
          else old(stationList.items[j].active)
      ensures msg.Stop? ==> forall j :: 0 <= j < |stationList.items| ==>
        stationList.items[j].active ==
          if Find(stationList.items, old(playingId)) == Some(j) then false
          else old(stationList.items[j].active)
      ensures !(msg.Play? || msg.Stop?) ==>
        forall item :: item in old(stationList.items) ==> item.active == old(item.active)
      // the controller's own fields
      ensures playingId == match msg
        case Play(_, id) => Some(id)
        case Stop => None
        case _ => old(playingId)
      ensures title == match msg
        case Play(station, _) => station.name
        case Stop => DEFAULT_TITLE
        case _ => old(title)
      ensures player == old(player) + match msg
        case Play(station, _) => [SetUri(station.url), Start]
        case Stop => [Halt]
        case _ => []
      ensures newStationName == if msg.StationNameChanged? then msg.name else old(newStationName)
      ensures newStationUrl == if msg.StationUrlChanged? then msg.url else old(newStationUrl)
      ensures hoverId == if msg.SetHoverId? then msg.hover else old(hoverId)
      ensures menuId == if msg.ShowMenu? && old(hoverId).Some? then old(hoverId).value else old(menuId)
    {
      match msg
      case Play(station, id) => Play(station, id);
      case Stop => Stop();
      case StationNameChanged(name) => StationNameChanged(name);
      case StationUrlChanged(url) => StationUrlChanged(url);
      case AddStation => AddStation();
      case ShowMenu => ShowMenu();
      case DeleteStation => DeleteStation();
      case SetHoverId(id) => SetHoverId(id);
    }
  }
}
