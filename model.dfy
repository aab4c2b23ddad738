/**
 * The vocabulary exchanged between a plugin worker and the controller
 * (crate::model and crate::Message of the client). Mailbox handles are not
 * part of the values: the worker's outgoing mailbox is an object of its own
 * (module Mailboxes), and the request handle a plugin hands over when it
 * registers is left out.
 */
module Model {
  /** One presentable result. `action` empty means activation does nothing. */
  datatype Entry = Entry(id: string, title: string, action: string, meta: string)

  /** The controller-side record a plugin sends when it registers. */
  datatype Plugin = Plugin(id: string, priority: nat, title: string, entries: seq<Entry>)

  /** What the controller asks of a plugin; `Timeout` is synthesised by the worker. */
  datatype PluginRequest = Search(query: string) | Timeout | Activate(entryId: string)

  /** What a plugin sends to the controller. */
  datatype Message =
    | RegisterPlugin(plugin: Plugin)
    | Clear(pluginId: string)
    | AppendEntry(pluginId: string, entry: Entry)
    | Exit
}
