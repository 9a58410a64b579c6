/** Who may view and edit a ZDocs page. Non-product pages take the status of
    their version and combine it with the user's global rights and their
    roles on the product; product pages have rules of their own. */
module Permissions {
  import opened Wrappers
  import opened Utils
  import opened Pages

  /** A user: the name the role lists hold and the rights the wiki grants. */
  datatype User = User(name: string, rights: set<string>)

  const AdministerRight := "zdocs-administer"
  const EditRight := "zdocs-edit"
  const PreviewRight := "zdocs-preview"

  /** The version statuses with a rule of their own. */
  const ReleasedStatus := "Released"
  const UnreleasedStatus := "Unreleased"
  const ClosedStatus := "Closed"

  /** `$user->isAllowed( $right )`. */
  predicate IsAllowed(u: User, right: string) {
    right in u.rights
  }

  /** `userIsAdmin`, `userIsEditor`, `userIsPreviewer`: the user's name is one
      of the values stored under the role's key on the product page. */
  predicate HasRole(w: Wiki, product: Option<PageName>, roleKey: Key, u: User) {
    product.Some? && HasPropValue(w, product.value, roleKey, u.name)
  }

  /** Everything the view and edit rules consult about one user. */
  datatype Standing = Standing(
    administer: bool, edit: bool, preview: bool,
    admin: bool, editor: bool, previewer: bool)

  function StandingOf(w: Wiki, product: Option<PageName>, u: User): (s: Standing)
    ensures s.administer <==> AdministerRight in u.rights
    ensures s.admin <==> product.Some? && u.name in PropValues(w, product.value, ProductAdminKey)
    ensures s.editor <==> product.Some? && u.name in PropValues(w, product.value, ProductEditorKey)
    ensures s.previewer <==> product.Some? && u.name in PropValues(w, product.value, ProductPreviewerKey)
  {
    Standing(
      IsAllowed(u, AdministerRight), IsAllowed(u, EditRight), IsAllowed(u, PreviewRight),
      HasRole(w, product, ProductAdminKey, u), HasRole(w, product, ProductEditorKey, u),
      HasRole(w, product, ProductPreviewerKey, u))
  }

  /** The clearance a standing gives: 3 for an administrator (global or of the
      product), 2 for an editor, 1 for a previewer, 0 otherwise. */
  function Clearance(s: Standing): (c: nat)
    ensures c <= 3
  {
    if s.administer || s.admin then 3
    else if s.edit || s.editor then 2
    else if s.preview || s.previewer then 1
    else 0
  }

  /** The clearance a status asks of viewers: Unreleased 1, Closed 3, any
      other status (Released, something else, blank or missing) 0. */
  function ViewClearance(status: Option<string>): nat {
    if status == Some(UnreleasedStatus) then 1
    else if status == Some(ClosedStatus) then 3
    else 0
  }

  /** The clearance a status asks of editors: Unreleased 2, Closed 3, else 0. */
  function EditClearance(status: Option<string>): nat {
    if status == Some(UnreleasedStatus) then 2
    else if status == Some(ClosedStatus) then 3
    else 0
  }

  /** The view rule of `userCanView` for a version status. */
  function ViewAllowed(status: Option<string>, s: Standing): (r: bool)
    ensures r <==> ViewClearance(status) <= Clearance(s)
  {
    if status == Some(ReleasedStatus) then true
    else if status == Some(UnreleasedStatus) then
      s.administer || s.edit || s.preview || s.admin || s.editor || s.previewer
    else if status == Some(ClosedStatus) then
      s.administer || s.admin
    else true
  }

  /** The edit rule of `userCanEdit`: as for viewing, except that an
      Unreleased version does not admit previewers. */
  function EditAllowed(status: Option<string>, s: Standing): (r: bool)
    ensures r <==> EditClearance(status) <= Clearance(s)
  {
    if status == Some(ReleasedStatus) then true
    else if status == Some(UnreleasedStatus) then
      s.administer || s.edit || s.admin || s.editor
    else if status == Some(ClosedStatus) then
      s.administer || s.admin
    else true
  }

  /** Whoever may edit may view; on Closed and on every status other than
      Unreleased the two rules coincide. */
  lemma EditImpliesView(status: Option<string>, s: Standing)
    ensures EditAllowed(status, s) ==> ViewAllowed(status, s)
    ensures status != Some(UnreleasedStatus) ==> (EditAllowed(status, s) <==> ViewAllowed(status, s))
  {
  }

  /** The product and version pages a non-product node belongs to: a version
      is its own version and its parent is its product; a manual or topic
      reads both from its name. */
  function NodeProductAndVersion(node: Node): (r: (Option<PageName>, Option<PageName>))
    ensures node.kind == Version ==> r == (ParentPage(node.name), Some(node.name))
    ensures node.kind in {Manual, Topic} && ProductAndVersionStrings(node.kind, node.name).Some?
              && ProductAndVersionStrings(node.kind, node.name).value.0 != "" ==>
              && r.0 == Some(ProductAndVersionStrings(node.kind, node.name).value.0)
              && r.1 == Ancestor(node.name, Level(node.kind) - 1)
  {
    if node.kind == Version then (ParentPage(node.name), Some(node.name))
    else
      match ProductAndVersionStrings(node.kind, node.name)
      case None => (None, None)
      case Some((p, v)) =>
        if p == "" then (None, Some(p + "/" + v))
        else
          ProductAndVersionAreAncestor(node.kind, node.name);
          (Some(p), Some(p + "/" + v))
  }

  /** `getStatus` of the node's version. */
  function NodeStatus(w: Wiki, node: Node): Option<string> {
    var version := NodeProductAndVersion(node).1;
    if version.Some? then GetProp(w, version.value, StatusKey) else None
  }

  /** `userCanView`. Everyone may view a product page. */
  function UserCanView(w: Wiki, node: Node, u: User): (r: bool)
    ensures node.kind == Product ==> r
    ensures node.kind != Product ==>
      (r <==> ViewClearance(NodeStatus(w, node))
               <= Clearance(StandingOf(w, NodeProductAndVersion(node).0, u)))
  {
    if node.kind == Product then true
    else ViewAllowed(NodeStatus(w, node), StandingOf(w, NodeProductAndVersion(node).0, u))
  }

  /** `userCanEdit`. A product page may be edited only by a global
      administrator or one of its own admins, so that nobody can add
      themselves to its role lists. */
  function UserCanEdit(w: Wiki, node: Node, u: User): (r: bool)
    ensures node.kind == Product ==>
      (r <==> AdministerRight in u.rights || u.name in PropValues(w, node.name, ProductAdminKey))
    ensures node.kind != Product ==>
      (r <==> EditClearance(NodeStatus(w, node))
               <= Clearance(StandingOf(w, NodeProductAndVersion(node).0, u)))
  {
    if node.kind == Product then
      IsAllowed(u, AdministerRight) || HasRole(w, Some(node.name), ProductAdminKey, u)
    else EditAllowed(NodeStatus(w, node), StandingOf(w, NodeProductAndVersion(node).0, u))
  }

  /** On every page, whoever may edit may view. */
  lemma CanEditImpliesCanView(w: Wiki, node: Node, u: User)
    ensures UserCanEdit(w, node, u) ==> UserCanView(w, node, u)
  {
    if node.kind != Product {
      EditImpliesView(NodeStatus(w, node), StandingOf(w, NodeProductAndVersion(node).0, u));
    }
  }

  /** A global administrator may view and edit every page. */
  lemma AdministratorMayDoAll(w: Wiki, node: Node, u: User)
    requires AdministerRight in u.rights
    ensures UserCanView(w, node, u) && UserCanEdit(w, node, u)
  {
  }

  /** On an Unreleased version, someone who is only a previewer may view but
      not edit. */
  lemma PreviewerOnUnreleased(w: Wiki, node: Node, u: User)
    requires node.kind != Product
    requires NodeStatus(w, node) == Some(UnreleasedStatus)
    requires Clearance(StandingOf(w, NodeProductAndVersion(node).0, u)) == 1
    ensures UserCanView(w, node, u) && !UserCanEdit(w, node, u)
  {
  }
}
