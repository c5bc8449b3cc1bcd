/** The table of host functions that undefined symbols of the game are bound to, and the
    configuration-dependent overrides that update_imports makes in it. */
module Imports {
  import opened Memory
  import opened Options

  datatype DynLibFunction = DynLibFunction(symbol: string, func: word)

  const GL_COMPRESSED_TEX_IMAGE := "glCompressedTexImage2D"
  const GL_TEX_PARAMETER := "glTexParameteri"

  /** The index of the first entry for a name, or -1. */
  function FirstMatch(fs: seq<DynLibFunction>, name: string): (k: int)
    ensures -1 <= k < |fs|
    ensures k >= 0 ==> fs[k].symbol == name
    ensures forall i | 0 <= i < (if k < 0 then |fs| else k) :: fs[i].symbol != name
  {
    if fs == [] then -1
    else if fs[0].symbol == name then 0
    else
      var k := FirstMatch(fs[1..], name);
      if k < 0 then -1 else k + 1
  }

  /** What a name is bound to. */
  function Bound(fs: seq<DynLibFunction>, name: string): Option<word> {
    var k := FirstMatch(fs, name);
    if k < 0 then None else Some(fs[k].func)
  }

  /** FirstMatch is the only index with its property. */
  lemma FirstMatchUnique(fs: seq<DynLibFunction>, name: string, k: int)
    requires 0 <= k < |fs| && fs[k].symbol == name
    requires forall i | 0 <= i < k :: fs[i].symbol != name
    ensures FirstMatch(fs, name) == k && Bound(fs, name) == Some(fs[k].func)
  {
  }

  lemma NoMatch(fs: seq<DynLibFunction>, name: string)
    requires forall i | 0 <= i < |fs| :: fs[i].symbol != name
    ensures Bound(fs, name) == None
  {
  }

  /** so_find_import: the first entry for a name; -1 stands for NULL. */
  method FindImport(funcs: array<DynLibFunction>, name: string) returns (k: int)
    ensures k == FirstMatch(funcs[..], name)
  {
    for i := 0 to funcs.Length
      invariant forall j | 0 <= j < i :: funcs[j].symbol != name
    {
      if funcs[i].symbol == name {
        FirstMatchUnique(funcs[..], name, i);
        return i;
      }
    }
    k := -1;
  }

  /** Binding the first entry for a name changes what that name is bound to and nothing else,
      even if the table holds the name more than once. */
  lemma {:induction false} OverrideBinds(fs: seq<DynLibFunction>, name: string, f: word, s: string)
    requires FirstMatch(fs, name) >= 0
    ensures var k := FirstMatch(fs, name);
            Bound(fs[k := fs[k].(func := f)], s) == if s == name then Some(f) else Bound(fs, s)
  {
    var k := FirstMatch(fs, name);
    var gs := fs[k := fs[k].(func := f)];
    assert forall i | 0 <= i < |fs| :: gs[i].symbol == fs[i].symbol;
    var j := FirstMatch(fs, s);
    if j >= 0 {
      FirstMatchUnique(gs, s, j);
    } else {
      NoMatch(gs, s);
    }
  }

  /** so_find_import(...)->func = f.  The result of so_find_import is followed without a NULL
      check, so the name must be in the table. */
  method Rebind(funcs: array<DynLibFunction>, name: string, f: word)
    requires FirstMatch(funcs[..], name) >= 0
    modifies funcs
    ensures forall s :: Bound(funcs[..], s) == if s == name then Some(f) else Bound(old(funcs[..]), s)
    ensures forall i | 0 <= i < funcs.Length :: funcs[i].symbol == old(funcs[i].symbol)
  {
    ghost var before := funcs[..];
    var k := FindImport(funcs, name);
    funcs[k] := funcs[k].(func := f);
    assert funcs[..] == before[k := before[k].(func := f)];
    forall s {
      OverrideBinds(before, name, f, s);
    }
  }

  /** update_imports.  The two configuration flags arrive as parameters, and so do the addresses
      of the hooks. */
  method UpdateImports(funcs: array<DynLibFunction>, mipmapsOff: bool, trilinear: bool,
                       imageHook: word, parameterHook: word)
    requires mipmapsOff ==> FirstMatch(funcs[..], GL_COMPRESSED_TEX_IMAGE) >= 0
    requires trilinear ==> FirstMatch(funcs[..], GL_TEX_PARAMETER) >= 0
    modifies funcs
    ensures mipmapsOff ==> Bound(funcs[..], GL_COMPRESSED_TEX_IMAGE) == Some(imageHook)
    ensures trilinear ==> Bound(funcs[..], GL_TEX_PARAMETER) == Some(parameterHook)
    ensures forall name |
              (mipmapsOff ==> name != GL_COMPRESSED_TEX_IMAGE) && (trilinear ==> name != GL_TEX_PARAMETER) ::
              Bound(funcs[..], name) == Bound(old(funcs[..]), name)
    ensures forall i | 0 <= i < funcs.Length :: funcs[i].symbol == old(funcs[i].symbol)
  {
    assert |GL_COMPRESSED_TEX_IMAGE| != |GL_TEX_PARAMETER|;
    if mipmapsOff {
      Rebind(funcs, GL_COMPRESSED_TEX_IMAGE, imageHook);
    }
    if trilinear {
      assert Bound(funcs[..], GL_TEX_PARAMETER) == Bound(old(funcs[..]), GL_TEX_PARAMETER);
      Rebind(funcs, GL_TEX_PARAMETER, parameterHook);
    }
  }
}
